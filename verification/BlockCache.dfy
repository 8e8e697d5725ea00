/** The write-back block cache in front of a disk (kernel/filesystem/drives.cpp), call by call.

    `CacheModel` holds the coherence relation between cache lines, device and the flat disk a client believes in,
    and shows what each elementary step does to it; `BlockCache` holds the drive itself. */
module CacheModel {
  import opened Bytes

  const NUM_LINES: nat := 8

  /** One cache slot. `data == []` stands for the null buffer of a slot never used. */
  datatype CachedBlock = CachedBlock(index: nat, data: seq<Byte>, dirty: bool, valid: bool)

  /** `slots` is the number of whole cache lines on the device. */
  datatype Geometry = Geometry(blockSize: nat, blocksPerCache: nat, slots: nat, needsBuffer: bool) {
    predicate Ok() {
      blockSize > 0 && blocksPerCache > 0
    }

    predicate ByteAccess() {
      blockSize == 1 && !needsBuffer
    }

    /** First byte of a block. */
    function At(block: nat): nat {
      Scale(block, blockSize)
    }

    function LineBytes(): nat {
      At(blocksPerCache)
    }

    predicate Covers(line: CachedBlock, p: int) {
      At(line.index) <= p < At(line.index) + LineBytes()
    }

    predicate LineOk(line: CachedBlock, diskSize: nat)
      requires Ok()
    {
      && (line.dirty || line.valid ==> line.data != [])
      && (line.data != [] ==>
            && |line.data| == LineBytes()
            && Rem(line.index, blocksPerCache) == 0
            && At(line.index) + LineBytes() <= diskSize)
    }

    /** The overlap test shared by flush and invalidate: a line that overlaps the range, or only touches it. */
    predicate Touches(lineIndex: nat, index: nat, numBlocks: nat) {
      !(index + numBlocks < lineIndex) && !(index > lineIndex + blocksPerCache)
    }

    /** A block number from the first of a range to the one just past it. */
    predicate Spans(first: nat, n: nat, b: nat) {
      first <= b <= first + n
    }

    /** A line passes exactly when it shares a block with the range or adjoins it. */
    lemma TouchesIff(lineIndex: nat, index: nat, numBlocks: nat)
      ensures Touches(lineIndex, index, numBlocks) <==>
        exists b :: Spans(lineIndex, blocksPerCache, b) && Spans(index, numBlocks, b)
    {
      if Touches(lineIndex, index, numBlocks) {
        var b := if lineIndex < index then index else lineIndex;
        assert Spans(lineIndex, blocksPerCache, b) && Spans(index, numBlocks, b);
      }
    }

    function AlignedBlock(block: nat): (r: nat)
      requires Ok()
      ensures r <= block < r + blocksPerCache && Rem(r, blocksPerCache) == 0
    {
      QuotRemUnique(Quot(block, blocksPerCache) * blocksPerCache, blocksPerCache, Quot(block, blocksPerCache), 0);
      block - Rem(block, blocksPerCache)
    }

    /** Two aligned lines that share a byte are the same line. */
    lemma CoverUnique(a: nat, b: nat, p: nat)
      requires Ok() && Rem(a, blocksPerCache) == 0 && Rem(b, blocksPerCache) == 0
      requires At(a) <= p < At(a) + LineBytes() && At(b) <= p < At(b) + LineBytes()
      ensures a == b
    {
      if a < b {
        AlignedApart(a, b, blocksPerCache);
        ScaleAdd(a, blocksPerCache, blockSize);
        ScaleMono(a + blocksPerCache, b, blockSize);
      } else if b < a {
        AlignedApart(b, a, blocksPerCache);
        ScaleAdd(b, blocksPerCache, blockSize);
        ScaleMono(b + blocksPerCache, a, blockSize);
      }
    }

    lemma LineBytesPositive()
      requires Ok()
      ensures LineBytes() > 0
    {
    }

    /** The line of a block on the device lies on the device and contains the block. */
    lemma LineOnDisk(block: nat)
      requires Ok() && At(block) < Scale(slots, LineBytes())
      ensures At(AlignedBlock(block)) + LineBytes() <= Scale(slots, LineBytes())
      ensures At(block) == At(AlignedBlock(block)) + At(block - AlignedBlock(block))
      ensures At(block) + blockSize <= At(AlignedBlock(block)) + LineBytes()
    {
      hide Scale;
      NextScale(block, blockSize);
      NextScale(Quot(block, blocksPerCache), LineBytes());
      var a, q := AlignedBlock(block), Quot(block, blocksPerCache);
      ScaleAdd(a, block - a, blockSize);
      ScaleAdd(a, blocksPerCache, blockSize);
      ScaleMono(block + 1, a + blocksPerCache, blockSize);
      ScaleIsProduct(q, blocksPerCache);
      assert a == Scale(q, blocksPerCache);
      ScaleScale(q, blocksPerCache, blockSize);
      if slots <= q {
        ScaleMono(slots, q, LineBytes());
      } else {
        ScaleMono(q + 1, slots, LineBytes());
      }
    }
  }

  /** Cache lines, device contents, and the flat disk they stand for. */
  datatype CacheState = CacheState(lines: seq<CachedBlock>, disk: seq<Byte>, bytes: seq<Byte>)

  /** What holds even after a write that lost data: sizes and alignment. */
  predicate Shape(g: Geometry, s: CacheState) {
    && g.Ok()
    && |s.lines| == NUM_LINES
    && |s.bytes| == |s.disk|
    && (g.ByteAccess() || |s.disk| == Scale(g.slots, g.LineBytes()))
    && LinesOk(g, s)
  }

  predicate LinesOk(g: Geometry, s: CacheState)
    requires g.Ok() && |s.lines| == NUM_LINES
  {
    forall i :: 0 <= i < NUM_LINES ==> g.LineOk(s.lines[i], |s.disk|)
  }

  ghost predicate DirtyAt(g: Geometry, lines: seq<CachedBlock>, p: nat) {
    exists i :: 0 <= i < |lines| && lines[i].dirty && g.Covers(lines[i], p)
  }

  /** Every valid line but `k` holds the client's bytes; every other byte, unless it lies in line `k`, is on the
      device; invalid lines are never dirty and no line is cached twice. `k == NUM_LINES`: no exception. */
  ghost predicate CoherentBut(g: Geometry, s: CacheState, k: nat) {
    && Shape(g, s)
    && (g.ByteAccess() ==> forall i :: 0 <= i < NUM_LINES ==> s.lines[i].data == [])
    && (forall i :: 0 <= i < NUM_LINES && s.lines[i].dirty ==> s.lines[i].valid)
    && (forall i, j :: 0 <= i < j < NUM_LINES && s.lines[i].valid && s.lines[j].valid ==> s.lines[i].index != s.lines[j].index)
    && (forall i, p :: 0 <= i < NUM_LINES && i != k && s.lines[i].valid && g.Covers(s.lines[i], p) ==>
          s.lines[i].data[p - g.At(s.lines[i].index)] == s.bytes[p])
    && (forall p :: 0 <= p < |s.disk| && s.bytes[p] != s.disk[p] && (k < NUM_LINES ==> !g.Covers(s.lines[k], p)) ==>
          DirtyAt(g, s.lines, p))
  }

  ghost predicate Coherent(g: Geometry, s: CacheState) {
    CoherentBut(g, s, NUM_LINES)
  }

  predicate TouchesDirty(g: Geometry, lines: seq<CachedBlock>, index: nat, numBlocks: nat) {
    exists i :: 0 <= i < |lines| && lines[i].dirty && g.Touches(lines[i].index, index, numBlocks)
  }

  lemma LongerRunTouches(g: Geometry, lines: seq<CachedBlock>, index: nat, numBlocks: nat)
    requires TouchesDirty(g, lines, index, 0)
    ensures TouchesDirty(g, lines, index, numBlocks)
  {
  }

  /** The byte a client reads at `p` right now. */
  ghost predicate Reads(g: Geometry, s: CacheState, p: nat, b: Byte)
    requires Shape(g, s) && p < |s.disk|
  {
    && (forall i :: 0 <= i < NUM_LINES && s.lines[i].valid && g.Covers(s.lines[i], p) ==>
          s.lines[i].data[p - g.At(s.lines[i].index)] == b)
    && ((forall i :: 0 <= i < NUM_LINES && s.lines[i].valid ==> !g.Covers(s.lines[i], p)) ==> s.disk[p] == b)
  }

  /** A valid line that covers a byte of line `block` is line `block`. */
  lemma UncachedIsOnDisk(g: Geometry, s: CacheState, block: nat, p: nat)
    requires Coherent(g, s) && Rem(block, g.blocksPerCache) == 0
    requires g.At(block) <= p < g.At(block) + g.LineBytes() && p < |s.disk|
    requires forall j :: 0 <= j < NUM_LINES ==> !(s.lines[j].valid && s.lines[j].index == block)
    ensures s.bytes[p] == s.disk[p]
  {
    if DirtyAt(g, s.lines, p) {
      var i :| 0 <= i < NUM_LINES && s.lines[i].dirty && g.Covers(s.lines[i], p);
      g.CoverUnique(s.lines[i].index, block, p);
    }
  }

  /** Coherence fixes what a client reads: the flat disk. */
  lemma CoherentReads(g: Geometry, s: CacheState, p: nat)
    requires Coherent(g, s) && p < |s.disk|
    ensures Reads(g, s, p, s.bytes[p])
  {
  }

  function CleanLine(lines: seq<CachedBlock>, i: nat): seq<CachedBlock>
    requires i < |lines|
  {
    lines[i := lines[i].(dirty := false)]
  }

  /** Writing a dirty line back changes nothing a client can see. */
  lemma WriteBackKeeps(g: Geometry, s: CacheState, i: nat)
    requires Coherent(g, s) && i < NUM_LINES && s.lines[i].dirty
    ensures Coherent(g, s.(disk := Splice(s.disk, g.At(s.lines[i].index), s.lines[i].data), lines := CleanLine(s.lines, i)))
  {
    var t := s.(disk := Splice(s.disk, g.At(s.lines[i].index), s.lines[i].data), lines := CleanLine(s.lines, i));
    forall p | 0 <= p < |t.disk| && t.bytes[p] != t.disk[p] ensures DirtyAt(g, t.lines, p) {
      if g.Covers(s.lines[i], p) {
        assert false;
      } else {
        var j :| 0 <= j < NUM_LINES && s.lines[j].dirty && g.Covers(s.lines[j], p);
        assert t.lines[j] == s.lines[j];
      }
    }
  }

  /** A device with byte access is never behind. */
  lemma NoCacheNoDifference(g: Geometry, s: CacheState)
    requires Coherent(g, s) && g.ByteAccess()
    ensures s.disk == s.bytes
  {
  }

  lemma FillShape(g: Geometry, s: CacheState, it: nat, line: CachedBlock)
    requires Shape(g, s) && it < NUM_LINES && g.LineOk(line, |s.disk|)
    ensures Shape(g, s.(lines := s.lines[it := line]))
  {
  }

  /** Handing a clean slot to a line that is not cached: coherent but for that line, and fully so when the line was
      read from the device. */
  lemma FillKeeps(g: Geometry, s: CacheState, it: nat, block: nat, buffer: seq<Byte>)
    requires Coherent(g, s) && it < NUM_LINES && !s.lines[it].dirty && !g.ByteAccess()
    requires Rem(block, g.blocksPerCache) == 0 && g.At(block) + g.LineBytes() <= |s.disk|
    requires buffer != [] && |buffer| == g.LineBytes()
    requires forall j :: 0 <= j < NUM_LINES ==> !(s.lines[j].valid && s.lines[j].index == block)
    ensures CoherentBut(g, s.(lines := s.lines[it := CachedBlock(block, buffer, false, true)]), it)
    ensures buffer == s.disk[g.At(block)..g.At(block) + g.LineBytes()] ==>
      Coherent(g, s.(lines := s.lines[it := CachedBlock(block, buffer, false, true)]))
  {
    var t := s.(lines := s.lines[it := CachedBlock(block, buffer, false, true)]);
    forall p | 0 <= p < |s.disk| && s.bytes[p] != s.disk[p] ensures !g.Covers(t.lines[it], p) && DirtyAt(g, t.lines, p) {
      if g.Covers(t.lines[it], p) {
        UncachedIsOnDisk(g, s, block, p);
      }
      var j :| 0 <= j < NUM_LINES && s.lines[j].dirty && g.Covers(s.lines[j], p);
      assert t.lines[j] == s.lines[j];
    }
  }

  /** What line `block` reads on the device. */
  function LineOf(g: Geometry, disk: seq<Byte>, block: nat): seq<Byte>
    requires g.At(block) + g.LineBytes() <= |disk|
  {
    disk[g.At(block)..g.At(block) + g.LineBytes()]
  }

  /** Writing back a line other than `block` leaves the device alone where `block` lies. */
  lemma EvictionIsElsewhere(g: Geometry, s: CacheState, it: nat, block: nat)
    requires Coherent(g, s) && it < NUM_LINES && s.lines[it].dirty
    requires Rem(block, g.blocksPerCache) == 0 && g.At(block) + g.LineBytes() <= |s.disk|
    requires !(s.lines[it].valid && s.lines[it].index == block)
    ensures LineOf(g, Splice(s.disk, g.At(s.lines[it].index), s.lines[it].data), block) == LineOf(g, s.disk, block)
  {
    var t := Splice(s.disk, g.At(s.lines[it].index), s.lines[it].data);
    forall p | g.At(block) <= p < g.At(block) + g.LineBytes() ensures t[p] == s.disk[p] {
      if g.Covers(s.lines[it], p) {
        g.CoverUnique(s.lines[it].index, block, p);
      }
    }
    assert LineOf(g, t, block) == LineOf(g, s.disk, block);
  }

  /** Storing into a cached line, wholly or into one that was coherent, is the same store on the flat disk. */
  lemma StoreKeeps(g: Geometry, s: CacheState, it: nat, lo: nat, buf: seq<Byte>)
    requires CoherentBut(g, s, it) && it < NUM_LINES && s.lines[it].valid
    requires lo + |buf| <= g.LineBytes()
    requires Coherent(g, s) || |buf| == g.LineBytes()
    ensures Coherent(g, StoredIn(g, s, it, lo, buf))
  {
    hide Splice, Scale;
    var t := StoredIn(g, s, it, lo, buf);
    forall i, p | 0 <= i < NUM_LINES && t.lines[i].valid && g.Covers(t.lines[i], p)
      ensures t.lines[i].data[p - g.At(t.lines[i].index)] == t.bytes[p]
    {
      StoreShows(g, s, it, lo, buf, i, p);
    }
    forall p | 0 <= p < |t.disk| && t.bytes[p] != t.disk[p] ensures DirtyAt(g, t.lines, p) {
      StoreIsDirty(g, s, it, lo, buf, p);
    }
  }

  /** Every valid line shows the client's bytes after a store. */
  lemma StoreShows(g: Geometry, s: CacheState, it: nat, lo: nat, buf: seq<Byte>, i: nat, p: nat)
    requires CoherentBut(g, s, it) && it < NUM_LINES && s.lines[it].valid && lo + |buf| <= g.LineBytes()
    requires Coherent(g, s) || |buf| == g.LineBytes()
    requires i < NUM_LINES && s.lines[i].valid && g.Covers(s.lines[i], p)
    ensures var t := StoredIn(g, s, it, lo, buf); t.lines[i].data[p - g.At(t.lines[i].index)] == t.bytes[p]
  {
    if i != it && g.Covers(s.lines[it], p) {
      g.CoverUnique(s.lines[i].index, s.lines[it].index, p);
    }
  }

  /** A byte ahead of the device after a store lies in a dirty line. */
  lemma StoreIsDirty(g: Geometry, s: CacheState, it: nat, lo: nat, buf: seq<Byte>, p: nat)
    requires CoherentBut(g, s, it) && it < NUM_LINES && s.lines[it].valid && lo + |buf| <= g.LineBytes() && p < |s.disk|
    requires Splice(s.bytes, g.At(s.lines[it].index) + lo, buf)[p] != s.disk[p]
    ensures DirtyAt(g, s.lines[it := s.lines[it].(data := Splice(s.lines[it].data, lo, buf), dirty := true)], p)
  {
    var line := s.lines[it].(data := Splice(s.lines[it].data, lo, buf), dirty := true);
    var lines := s.lines[it := line];
    if g.Covers(line, p) {
      assert lines[it].dirty && g.Covers(lines[it], p);
    } else {
      assert s.bytes[p] != s.disk[p];
      var j :| 0 <= j < NUM_LINES && s.lines[j].dirty && g.Covers(s.lines[j], p);
      assert lines[j].dirty && g.Covers(lines[j], p);
    }
  }

  /** A line sharing a byte with a run of blocks passes the overlap test. */
  lemma OverlapTouches(g: Geometry, line: CachedBlock, index: nat, numBlocks: nat, p: nat)
    requires g.Covers(line, p) && g.At(index) <= p < g.At(index + numBlocks)
    ensures g.Touches(line.index, index, numBlocks)
  {
    if index + numBlocks < line.index {
      ScaleMono(index + numBlocks, line.index, g.blockSize);
    } else if index > line.index + g.blocksPerCache {
      ScaleAdd(line.index, g.blocksPerCache, g.blockSize);
      ScaleMono(line.index + g.blocksPerCache, index, g.blockSize);
    }
  }

  /** After a flush the device itself holds the client's bytes for the range. */
  lemma FlushedIsOnDisk(g: Geometry, s: CacheState, index: nat, numBlocks: nat)
    requires Coherent(g, s) && !TouchesDirty(g, s.lines, index, numBlocks)
    requires g.At(index) <= g.At(index + numBlocks) <= |s.disk|
    ensures s.disk[g.At(index)..g.At(index + numBlocks)] == s.bytes[g.At(index)..g.At(index + numBlocks)]
  {
    forall p | g.At(index) <= p < g.At(index + numBlocks) ensures s.disk[p] == s.bytes[p] {
      if s.bytes[p] != s.disk[p] {
        var j :| 0 <= j < NUM_LINES && s.lines[j].dirty && g.Covers(s.lines[j], p);
        OverlapTouches(g, s.lines[j], index, numBlocks, p);
      }
    }
  }

  /** What a coherent line holds, as a slice of the flat disk. */
  lemma CachedBytes(g: Geometry, s: CacheState, it: nat, lo: nat, n: nat)
    requires Coherent(g, s) && it < NUM_LINES && s.lines[it].valid && lo + n <= g.LineBytes()
    ensures s.lines[it].data[lo..lo + n] == s.bytes[g.At(s.lines[it].index) + lo..g.At(s.lines[it].index) + lo + n]
  {
  }

  function Invalidated(g: Geometry, lines: seq<CachedBlock>, index: nat, numBlocks: nat): (r: seq<CachedBlock>)
    ensures |r| == |lines|
    ensures forall i :: 0 <= i < |lines| ==>
      r[i] == if g.Touches(lines[i].index, index, numBlocks) then lines[i].(valid := false) else lines[i]
  {
    seq(|lines|, i requires 0 <= i < |lines| =>
      if g.Touches(lines[i].index, index, numBlocks) then lines[i].(valid := false) else lines[i])
  }

  /** Invalidating a range and writing it straight to the device keeps the cache coherent exactly when no dirty line
      passes the overlap test. */
  lemma DirectWriteKeepsIff(g: Geometry, s: CacheState, index: nat, numBlocks: nat, buf: seq<Byte>)
    requires Coherent(g, s)
    requires g.At(index) + |buf| == g.At(index + numBlocks) <= |s.disk|
    ensures Coherent(g, CacheState(Invalidated(g, s.lines, index, numBlocks),
                                   Splice(s.disk, g.At(index), buf), Splice(s.bytes, g.At(index), buf)))
       <==> !TouchesDirty(g, s.lines, index, numBlocks)
  {
    var t := CacheState(Invalidated(g, s.lines, index, numBlocks),
                        Splice(s.disk, g.At(index), buf), Splice(s.bytes, g.At(index), buf));
    if TouchesDirty(g, s.lines, index, numBlocks) {
      var i :| 0 <= i < NUM_LINES && s.lines[i].dirty && g.Touches(s.lines[i].index, index, numBlocks);
      assert t.lines[i].dirty && !t.lines[i].valid;
    } else {
      forall i, p | 0 <= i < NUM_LINES && t.lines[i].valid && g.Covers(t.lines[i], p)
        ensures t.lines[i].data[p - g.At(t.lines[i].index)] == t.bytes[p]
      {
        if g.At(index) <= p < g.At(index + numBlocks) {
          OverlapTouches(g, t.lines[i], index, numBlocks, p);
        }
      }
      forall p | 0 <= p < |t.disk| && t.bytes[p] != t.disk[p] ensures DirtyAt(g, t.lines, p) {
        var j :| 0 <= j < NUM_LINES && s.lines[j].dirty && g.Covers(s.lines[j], p);
        assert t.lines[j] == s.lines[j];
      }
    }
  }

  /** What such a write does to a line that only touches the range or sticks out of it: its bytes outside the range
      read back as what the device had, so the client's own byte survives exactly when the line was not ahead there. */
  lemma DirectWriteForgets(g: Geometry, s: CacheState, index: nat, numBlocks: nat, buf: seq<Byte>, it: nat, p: nat)
    requires Coherent(g, s)
    requires g.At(index) + |buf| == g.At(index + numBlocks) <= |s.disk|
    requires it < NUM_LINES && s.lines[it].valid && g.Touches(s.lines[it].index, index, numBlocks)
    requires g.Covers(s.lines[it], p) && !(g.At(index) <= p < g.At(index + numBlocks))
    ensures var t := CacheState(Invalidated(g, s.lines, index, numBlocks),
                                Splice(s.disk, g.At(index), buf), Splice(s.bytes, g.At(index), buf));
      Shape(g, t) && (Reads(g, t, p, t.bytes[p]) <==> s.bytes[p] == s.disk[p])
  {
    var t := CacheState(Invalidated(g, s.lines, index, numBlocks),
                        Splice(s.disk, g.At(index), buf), Splice(s.bytes, g.At(index), buf));
    forall i | 0 <= i < NUM_LINES && t.lines[i].valid ensures !g.Covers(t.lines[i], p) {
      if g.Covers(t.lines[i], p) {
        g.CoverUnique(s.lines[i].index, s.lines[it].index, p);
      }
    }
  }

  // ---- what a partial write does, slot by slot ----

  /** The slot that holds line `block`, the first if there are several, or none. */
  function SlotOf(lines: seq<CachedBlock>, block: nat, from: nat): (it: nat)
    ensures from <= |lines| ==> it <= |lines|
    ensures it < |lines| ==> lines[it].valid && lines[it].index == block
    decreases |lines| - from
  {
    if from >= |lines| || (lines[from].valid && lines[from].index == block) then from else SlotOf(lines, block, from + 1)
  }

  lemma {:induction false} SlotIsFirst(lines: seq<CachedBlock>, block: nat, from: nat, it: nat)
    requires from <= it <= |lines| && (it < |lines| ==> lines[it].valid && lines[it].index == block)
    requires forall j :: from <= j < it ==> !(lines[j].valid && lines[j].index == block)
    ensures SlotOf(lines, block, from) == it
    decreases |lines| - from
  {
    if from < it {
      SlotIsFirst(lines, block, from + 1, it);
    }
  }

  function Evicted(g: Geometry, s: CacheState, k: nat): (r: CacheState)
    requires g.Ok() && Shape(g, s) && k < NUM_LINES
    ensures Shape(g, r) && |r.disk| == |s.disk|
  {
    if s.lines[k].dirty
    then s.(disk := Splice(s.disk, g.At(s.lines[k].index), s.lines[k].data), lines := CleanLine(s.lines, k))
    else s
  }

  function Refilled(g: Geometry, s: CacheState, k: nat, block: nat): (r: CacheState)
    requires g.Ok() && Shape(g, s) && k < NUM_LINES && Rem(block, g.blocksPerCache) == 0 && g.At(block) + g.LineBytes() <= |s.disk|
    ensures Shape(g, r) && |r.disk| == |s.disk| && |r.lines[k].data| == g.LineBytes()
  {
    g.LineBytesPositive();
    var u := Evicted(g, s, k);
    u.(lines := u.lines[k := CachedBlock(block, LineOf(g, u.disk, block), false, true)])
  }

  function StoredIn(g: Geometry, s: CacheState, it: nat, lo: nat, buf: seq<Byte>): (r: CacheState)
    requires g.Ok() && Shape(g, s) && it < NUM_LINES && s.lines[it].valid && lo + |buf| <= g.LineBytes()
    ensures Shape(g, r)
  {
    s.(lines := s.lines[it := s.lines[it].(data := Splice(s.lines[it].data, lo, buf), dirty := true)],
       bytes := Splice(s.bytes, g.At(s.lines[it].index) + lo, buf))
  }

  /** The cache and the last slot filled, after a write of `buf` at byte `lo` of line `block`. */
  function BlockWritten(g: Geometry, s: CacheState, last: nat, block: nat, lo: nat, buf: seq<Byte>): (r: (CacheState, nat))
    requires g.Ok() && Shape(g, s) && Rem(block, g.blocksPerCache) == 0 && g.At(block) + g.LineBytes() <= |s.disk|
    requires lo + |buf| <= g.LineBytes()
    ensures Shape(g, r.0)
  {
    var it, k := SlotOf(s.lines, block, 0), (last + 1) % NUM_LINES;
    if it < NUM_LINES then (StoredIn(g, s, it, lo, buf), last)
    else (StoredIn(g, Refilled(g, s, k, block), k, lo, buf), k)
  }

  lemma StoreFits(g: Geometry, s: CacheState, it: nat, lo: nat, buf: seq<Byte>)
    requires g.Ok() && Shape(g, s) && it < NUM_LINES && s.lines[it].valid && lo + |buf| <= g.LineBytes()
    ensures lo + |buf| <= |s.lines[it].data| == g.LineBytes() && g.At(s.lines[it].index) + lo + |buf| <= |s.disk|
  {
  }

  /** Finding or refilling the slot, then storing into it. */
  lemma WrittenIs(g: Geometry, was: CacheState, last: nat, s: CacheState, last': nat, it: nat, block: nat, lo: nat, buf: seq<Byte>)
    requires g.Ok() && Shape(g, was) && Rem(block, g.blocksPerCache) == 0 && g.At(block) + g.LineBytes() <= |was.disk|
    requires lo + |buf| <= g.LineBytes() && Shape(g, s) && it < NUM_LINES && s.lines[it].valid
    requires var k := SlotOf(was.lines, block, 0);
      if k < NUM_LINES then it == k && s == was && last' == last
      else it == last' == (last + 1) % NUM_LINES && s == Refilled(g, was, it, block)
    ensures BlockWritten(g, was, last, block, lo, buf) == (StoredIn(g, s, it, lo, buf), last')
  {
  }

  /** What a whole-block write straight to the device leaves. */
  function Bypassed(g: Geometry, s: CacheState, index: nat, numBlocks: nat, buf: seq<Byte>): (r: CacheState)
    requires g.Ok() && Shape(g, s) && g.At(index) + |buf| <= |s.disk|
    ensures Shape(g, r) && |r.disk| == |s.disk|
  {
    CacheState(Invalidated(g, s.lines, index, numBlocks), Splice(s.disk, g.At(index), buf), Splice(s.bytes, g.At(index), buf))
  }

  /** It leaves a line alone exactly if the range ends before it or begins after it, neither next to it, or the line was not
      valid; the others lose their valid flag and nothing else. */
  lemma BypassLeaves(g: Geometry, s: CacheState, index: nat, numBlocks: nat, buf: seq<Byte>, i: nat)
    requires g.Ok() && Shape(g, s) && g.At(index) + |buf| <= |s.disk| && i < NUM_LINES
    ensures var line, now := s.lines[i], Bypassed(g, s, index, numBlocks, buf).lines[i];
      var apart := index + numBlocks < line.index || line.index + g.blocksPerCache < index;
      && (now == line <==> apart || !line.valid) && (!apart ==> !now.valid)
      && now.index == line.index && now.data == line.data && now.dirty == line.dirty
  {
    g.TouchesIff(s.lines[i].index, index, numBlocks);
  }

  /** Every byte reads right at this moment. */
  ghost predicate AllRead(g: Geometry, s: CacheState)
    requires g.Ok() && Shape(g, s)
  {
    forall p :: 0 <= p < |s.disk| ==> Reads(g, s, p, s.bytes[p])
  }

  /** The device has byte `p`. */
  predicate OnDevice(s: CacheState, p: int) {
    0 <= p < |s.disk| && p < |s.bytes| && s.bytes[p] == s.disk[p]
  }

  /** Byte `p` lies in a valid line that passes the overlap test, outside the range. */
  predicate Beside(g: Geometry, line: CachedBlock, p: int, index: nat, numBlocks: nat) {
    line.valid && g.Touches(line.index, index, numBlocks) && g.Covers(line, p) && !(g.At(index) <= p < g.At(index + numBlocks))
  }

  /** No line passing the overlap test is ahead of the device outside the range. */
  ghost predicate NoneAhead(g: Geometry, s: CacheState, index: nat, numBlocks: nat) {
    forall i, p :: 0 <= i < |s.lines| && Beside(g, s.lines[i], p, index, numBlocks) ==> OnDevice(s, p)
  }

  /** After a direct write every byte reads right exactly when no line it invalidated was ahead of the device outside the
      range. */
  lemma BypassReadsIff(g: Geometry, s: CacheState, index: nat, numBlocks: nat, buf: seq<Byte>)
    requires Coherent(g, s) && g.At(index) + |buf| == g.At(index + numBlocks) <= |s.disk|
    ensures AllRead(g, Bypassed(g, s, index, numBlocks, buf)) <==> NoneAhead(g, s, index, numBlocks)
  {
    hide Splice, Scale, Reads, LinesOk, Beside;
    var t := Bypassed(g, s, index, numBlocks, buf);
    if AllRead(g, t) {
      forall i, p | 0 <= i < |s.lines| && Beside(g, s.lines[i], p, index, numBlocks) ensures OnDevice(s, p) {
        BypassReads(g, s, index, numBlocks, buf, i, p);
      }
    }
    if NoneAhead(g, s, index, numBlocks) {
      forall p: nat | p < |t.disk| ensures Reads(g, t, p, t.bytes[p]) {
        BypassReadsHere(g, s, index, numBlocks, buf, p);
      }
    }
  }

  lemma BypassReads(g: Geometry, s: CacheState, index: nat, numBlocks: nat, buf: seq<Byte>, i: nat, p: int)
    requires Coherent(g, s) && g.At(index) + |buf| == g.At(index + numBlocks) <= |s.disk| && i < NUM_LINES
    requires Beside(g, s.lines[i], p, index, numBlocks)
    ensures 0 <= p < |s.disk|
    ensures var t := Bypassed(g, s, index, numBlocks, buf); Reads(g, t, p, t.bytes[p]) <==> OnDevice(s, p)
  {
    DirectWriteForgets(g, s, index, numBlocks, buf, i, p);
  }

  lemma BypassReadsHere(g: Geometry, s: CacheState, index: nat, numBlocks: nat, buf: seq<Byte>, p: nat)
    requires Coherent(g, s) && g.At(index) + |buf| == g.At(index + numBlocks) <= |s.disk| && p < |s.disk|
    requires NoneAhead(g, s, index, numBlocks)
    ensures var t := Bypassed(g, s, index, numBlocks, buf); Reads(g, t, p, t.bytes[p])
  {
    var t := Bypassed(g, s, index, numBlocks, buf);
    if g.At(index) <= p < g.At(index + numBlocks) {
      forall i | 0 <= i < NUM_LINES && g.Covers(s.lines[i], p) ensures !t.lines[i].valid {
        OverlapTouches(g, s.lines[i], index, numBlocks, p);
      }
    } else if i :| 0 <= i < NUM_LINES && s.lines[i].valid && g.Covers(s.lines[i], p) {
      if g.Touches(s.lines[i].index, index, numBlocks) {
        BypassReads(g, s, index, numBlocks, buf, i, p);
      }
    }
  }

  /** Where the line and the bytes written past it overlap, they are the same. */
  predicate Agrees(g: Geometry, line: CachedBlock, index: nat, buf: seq<Byte>)
    requires |line.data| == g.LineBytes()
  {
    forall p :: g.At(index) <= p < g.At(index) + |buf| && g.Covers(line, p) ==>
      line.data[p - g.At(line.index)] == buf[p - g.At(index)]
  }

  /** The only dirty line passing the overlap test is in slot `k`, and it agrees with what is written. */
  predicate OnlyHarmless(g: Geometry, s: CacheState, index: nat, numBlocks: nat, buf: seq<Byte>, k: nat)
    requires g.Ok() && Shape(g, s)
  {
    forall i :: 0 <= i < NUM_LINES && s.lines[i].dirty && g.Touches(s.lines[i].index, index, numBlocks) ==>
      i == k && Agrees(g, s.lines[i], index, buf)
  }

  /** When the one dirty line is written back late but changes nothing, the cache is coherent again. */
  lemma EvictionMends(g: Geometry, s: CacheState, index: nat, numBlocks: nat, buf: seq<Byte>, k: nat)
    requires Coherent(g, s) && k < NUM_LINES && g.At(index) + |buf| == g.At(index + numBlocks) <= |s.disk|
    requires OnlyHarmless(g, s, index, numBlocks, buf, k)
    ensures Coherent(g, Evicted(g, Bypassed(g, s, index, numBlocks, buf), k))
  {
    var t := Bypassed(g, s, index, numBlocks, buf);
    var u := Evicted(g, t, k);
    forall i, p | 0 <= i < NUM_LINES && u.lines[i].valid && g.Covers(u.lines[i], p)
      ensures u.lines[i].data[p - g.At(u.lines[i].index)] == u.bytes[p]
    {
      if g.At(index) <= p < g.At(index + numBlocks) {
        OverlapTouches(g, s.lines[i], index, numBlocks, p);
      }
    }
    forall p | 0 <= p < |u.disk| && u.bytes[p] != u.disk[p] ensures DirtyAt(g, u.lines, p) {
      MendedIsDirty(g, s, index, numBlocks, buf, k, p);
    }
  }

  lemma MendedIsDirty(g: Geometry, s: CacheState, index: nat, numBlocks: nat, buf: seq<Byte>, k: nat, p: nat)
    requires Coherent(g, s) && k < NUM_LINES && g.At(index) + |buf| == g.At(index + numBlocks) <= |s.disk|
    requires OnlyHarmless(g, s, index, numBlocks, buf, k) && p < |s.disk|
    ensures var u := Evicted(g, Bypassed(g, s, index, numBlocks, buf), k);
      u.bytes[p] != u.disk[p] ==> DirtyAt(g, u.lines, p)
  {
    var u := Evicted(g, Bypassed(g, s, index, numBlocks, buf), k);
    if s.lines[k].dirty && g.Covers(s.lines[k], p) {
      LateIsSame(g, s, index, numBlocks, buf, k, p);
    } else if u.bytes[p] != u.disk[p] {
      var j :| 0 <= j < NUM_LINES && s.lines[j].dirty && g.Covers(s.lines[j], p);
      assert u.lines[j] == s.lines[j];
    }
  }

  lemma LateIsSame(g: Geometry, s: CacheState, index: nat, numBlocks: nat, buf: seq<Byte>, k: nat, p: nat)
    requires Coherent(g, s) && k < NUM_LINES && g.At(index) + |buf| == g.At(index + numBlocks) <= |s.disk|
    requires OnlyHarmless(g, s, index, numBlocks, buf, k) && s.lines[k].dirty && g.Covers(s.lines[k], p) && p < |s.disk|
    ensures s.lines[k].data[p - g.At(s.lines[k].index)] == Bypassed(g, s, index, numBlocks, buf).bytes[p]
    ensures Evicted(g, Bypassed(g, s, index, numBlocks, buf), k).disk[p] == Bypassed(g, s, index, numBlocks, buf).bytes[p]
  {
    if g.At(index) <= p < g.At(index + numBlocks) {
      OverlapTouches(g, s.lines[k], index, numBlocks, p);
    }
  }

  /** A partial write after whole blocks sent past a dirty line: the slot it evicts decides, exactly. */
  lemma TailMendsIff(g: Geometry, s: CacheState, index: nat, numBlocks: nat, buf: seq<Byte>, last: nat, block: nat, lo: nat, tail: seq<Byte>)
    requires Coherent(g, s) && !g.ByteAccess() && g.At(index) + |buf| == g.At(index + numBlocks) <= |s.disk|
    requires Rem(block, g.blocksPerCache) == 0 && g.At(block) + g.LineBytes() <= |s.disk| && lo + |tail| <= g.LineBytes()
    requires g.Touches(block, index, numBlocks) && g.At(block) + lo >= g.At(index + numBlocks)
    ensures Coherent(g, BlockWritten(g, Bypassed(g, s, index, numBlocks, buf), last, block, lo, tail).0)
       <==> OnlyHarmless(g, s, index, numBlocks, buf, (last + 1) % NUM_LINES)
  {
    var t, k := Bypassed(g, s, index, numBlocks, buf), (last + 1) % NUM_LINES;
    var v := BlockWritten(g, t, last, block, lo, tail).0;
    assert SlotOf(t.lines, block, 0) == NUM_LINES;
    if OnlyHarmless(g, s, index, numBlocks, buf, k) {
      EvictionMends(g, s, index, numBlocks, buf, k);
      TailKeeps(g, t, k, block, lo, tail);
    } else {
      var i :| 0 <= i < NUM_LINES && s.lines[i].dirty && g.Touches(s.lines[i].index, index, numBlocks)
               && !(i == k && Agrees(g, s.lines[i], index, buf));
      if i != k {
        assert v.lines[i].dirty && !v.lines[i].valid;
      } else if Coherent(g, v) {
        StaleShows(g, s, index, numBlocks, buf, k, block, lo, tail);
      }
    }
  }

  lemma TailKeeps(g: Geometry, t: CacheState, k: nat, block: nat, lo: nat, tail: seq<Byte>)
    requires g.Ok() && Shape(g, t) && k < NUM_LINES && Coherent(g, Evicted(g, t, k)) && !g.ByteAccess()
    requires Rem(block, g.blocksPerCache) == 0 && g.At(block) + g.LineBytes() <= |t.disk| && lo + |tail| <= g.LineBytes()
    requires forall j :: 0 <= j < NUM_LINES ==> !(t.lines[j].valid && t.lines[j].index == block)
    ensures Coherent(g, StoredIn(g, Refilled(g, t, k, block), k, lo, tail))
  {
    hide Splice, Scale, Rem;
    var u := Evicted(g, t, k);
    g.LineBytesPositive();
    assert forall j :: 0 <= j < NUM_LINES ==> u.lines[j].valid == t.lines[j].valid && u.lines[j].index == t.lines[j].index;
    FillKeeps(g, u, k, block, LineOf(g, u.disk, block));
    StoreKeeps(g, Refilled(g, t, k, block), k, lo, tail);
  }

  /** A stale byte written back over the run stays visible. */
  lemma StaleShows(g: Geometry, s: CacheState, index: nat, numBlocks: nat, buf: seq<Byte>, k: nat, block: nat, lo: nat, tail: seq<Byte>)
    requires Coherent(g, s) && !g.ByteAccess() && g.At(index) + |buf| == g.At(index + numBlocks) <= |s.disk| && k < NUM_LINES
    requires Rem(block, g.blocksPerCache) == 0 && g.At(block) + g.LineBytes() <= |s.disk| && lo + |tail| <= g.LineBytes()
    requires g.At(block) + lo >= g.At(index + numBlocks) && s.lines[k].dirty && !Agrees(g, s.lines[k], index, buf)
    requires g.Touches(s.lines[k].index, index, numBlocks)
    ensures !Coherent(g, StoredIn(g, Refilled(g, Bypassed(g, s, index, numBlocks, buf), k, block), k, lo, tail))
  {
    hide Splice, Scale;
    var p :| g.At(index) <= p < g.At(index) + |buf| && g.Covers(s.lines[k], p)
             && s.lines[k].data[p - g.At(s.lines[k].index)] != buf[p - g.At(index)];
    StaleByte(g, s, index, numBlocks, buf, k, block, lo, tail, p);
    var v := StoredIn(g, Refilled(g, Bypassed(g, s, index, numBlocks, buf), k, block), k, lo, tail);
    hide StoredIn, Refilled, Bypassed;
    if Coherent(g, v) {
      assert !g.Covers(v.lines[k], p) && DirtyAt(g, v.lines, p);
      var j :| 0 <= j < NUM_LINES && v.lines[j].dirty && g.Covers(v.lines[j], p);
      OverlapTouches(g, s.lines[j], index, numBlocks, p);
    }
  }

  lemma StaleByte(g: Geometry, s: CacheState, index: nat, numBlocks: nat, buf: seq<Byte>, k: nat, block: nat, lo: nat, tail: seq<Byte>, p: nat)
    requires g.Ok() && Shape(g, s) && g.At(index) + |buf| == g.At(index + numBlocks) <= |s.disk| && k < NUM_LINES
    requires Rem(block, g.blocksPerCache) == 0 && g.At(block) + g.LineBytes() <= |s.disk| && lo + |tail| <= g.LineBytes()
    requires g.At(block) + lo >= g.At(index + numBlocks) && s.lines[k].dirty
    requires g.At(index) <= p < g.At(index) + |buf| && g.Covers(s.lines[k], p)
    ensures var v := StoredIn(g, Refilled(g, Bypassed(g, s, index, numBlocks, buf), k, block), k, lo, tail);
      && v.bytes[p] == buf[p - g.At(index)] && v.disk[p] == s.lines[k].data[p - g.At(s.lines[k].index)]
      && v.lines[k].valid && (g.Covers(v.lines[k], p) ==> v.lines[k].data[p - g.At(v.lines[k].index)] == v.disk[p])
      && forall j :: 0 <= j < NUM_LINES && j != k ==> v.lines[j].dirty == s.lines[j].dirty && v.lines[j].index == s.lines[j].index
  {
  }

  /** After a direct write and its tail: the line of the slot the tail evicts differs from what was written nowhere, and no
      other line the write invalidated is ahead of the device outside what was written. */
  ghost predicate TailNoneAhead(g: Geometry, s: CacheState, index: nat, numBlocks: nat, buf: seq<Byte>, k: nat, from: nat, to: nat)
    requires g.Ok() && Shape(g, s) && k < NUM_LINES
  {
    && (s.lines[k].dirty && g.Touches(s.lines[k].index, index, numBlocks) ==> Agrees(g, s.lines[k], index, buf))
    && forall i, p :: 0 <= i < |s.lines| && i != k && !(from <= p < to) && Beside(g, s.lines[i], p, index, numBlocks) ==> OnDevice(s, p)
  }

  ghost predicate TailOk(g: Geometry, s: CacheState, index: nat, numBlocks: nat, buf: seq<Byte>, block: nat, lo: nat, tail: seq<Byte>) {
    && Coherent(g, s) && !g.ByteAccess() && g.At(index) + |buf| == g.At(index + numBlocks) <= |s.disk|
    && Rem(block, g.blocksPerCache) == 0 && g.At(block) + g.LineBytes() <= |s.disk| && lo + |tail| <= g.LineBytes()
    && g.Touches(block, index, numBlocks) && g.At(block) + lo >= g.At(index + numBlocks)
  }

  /** The state after the tail, at one byte and slot by slot. */
  lemma TailState(g: Geometry, t: CacheState, k: nat, block: nat, lo: nat, tail: seq<Byte>, p: nat)
    requires g.Ok() && Shape(g, t) && k < NUM_LINES && p < |t.disk|
    requires Rem(block, g.blocksPerCache) == 0 && g.At(block) + g.LineBytes() <= |t.disk| && lo + |tail| <= g.LineBytes()
    ensures var v, at, late := StoredIn(g, Refilled(g, t, k, block), k, lo, tail), g.At(block), Evicted(g, t, k).disk;
      var written := at + lo <= p < at + lo + |tail|;
      && v.disk == late && v.bytes[p] == (if written then tail[p - at - lo] else t.bytes[p])
      && v.lines[k].valid && v.lines[k].index == block
      && (g.Covers(v.lines[k], p) ==> v.lines[k].data[p - at] == if written then tail[p - at - lo] else late[p])
      && forall i :: 0 <= i < NUM_LINES && i != k ==> v.lines[i] == t.lines[i]
  {
  }

  /** A line that was not invalidated lies apart from what was written, and has the client's bytes. */
  lemma UntouchedShows(g: Geometry, s: CacheState, index: nat, numBlocks: nat, buf: seq<Byte>, block: nat, lo: nat, tail: seq<Byte>, i: nat, p: nat)
    requires TailOk(g, s, index, numBlocks, buf, block, lo, tail) && i < NUM_LINES && p < |s.disk|
    requires s.lines[i].valid && !g.Touches(s.lines[i].index, index, numBlocks) && g.Covers(s.lines[i], p)
    ensures !(g.At(block) <= p < g.At(block) + g.LineBytes()) && !(g.At(index) <= p < g.At(index + numBlocks))
    ensures s.lines[i].data[p - g.At(s.lines[i].index)] == s.bytes[p] == Bypassed(g, s, index, numBlocks, buf).bytes[p]
  {
    if g.At(index) <= p < g.At(index + numBlocks) {
      OverlapTouches(g, s.lines[i], index, numBlocks, p);
    }
    if g.At(block) <= p < g.At(block) + g.LineBytes() {
      g.CoverUnique(s.lines[i].index, block, p);
    }
  }

  /** A byte reads right when the tail wrote it, a line that was not invalidated has it, or the device does after the
      eviction. */
  lemma TailReads(g: Geometry, s: CacheState, index: nat, numBlocks: nat, buf: seq<Byte>, k: nat, block: nat, lo: nat, tail: seq<Byte>, p: nat)
    requires TailOk(g, s, index, numBlocks, buf, block, lo, tail) && k < NUM_LINES && p < |s.disk|
    ensures var t := Bypassed(g, s, index, numBlocks, buf); var v := StoredIn(g, Refilled(g, t, k, block), k, lo, tail);
      Reads(g, v, p, v.bytes[p]) <==>
        || g.At(block) + lo <= p < g.At(block) + lo + |tail|
        || (exists i :: 0 <= i < NUM_LINES && i != k && t.lines[i].valid && g.Covers(t.lines[i], p))
        || Evicted(g, t, k).disk[p] == t.bytes[p]
  {
    hide Splice, Scale;
    var t := Bypassed(g, s, index, numBlocks, buf);
    TailState(g, t, k, block, lo, tail, p);
    forall i | 0 <= i < NUM_LINES && i != k && t.lines[i].valid && g.Covers(t.lines[i], p)
      ensures !(g.At(block) <= p < g.At(block) + g.LineBytes()) && t.lines[i].data[p - g.At(t.lines[i].index)] == t.bytes[p]
    {
      UntouchedShows(g, s, index, numBlocks, buf, block, lo, tail, i, p);
    }
    hide StoredIn, Refilled, Evicted, Bypassed, CoherentBut, LinesOk;
  }

  lemma LateIs(g: Geometry, s: CacheState, index: nat, numBlocks: nat, buf: seq<Byte>, k: nat, p: nat)
    requires Coherent(g, s) && g.At(index) + |buf| == g.At(index + numBlocks) <= |s.disk| && k < NUM_LINES && p < |s.disk|
    ensures var t := Bypassed(g, s, index, numBlocks, buf);
      && Evicted(g, t, k).disk[p] == (if s.lines[k].dirty && g.Covers(s.lines[k], p) then s.lines[k].data[p - g.At(s.lines[k].index)] else t.disk[p])
      && (if g.At(index) <= p < g.At(index + numBlocks) then t.disk[p] == t.bytes[p] == buf[p - g.At(index)]
          else t.disk[p] == s.disk[p] && t.bytes[p] == s.bytes[p])
  {
  }

  /** Only one line covers a byte. */
  lemma OneCovers(g: Geometry, s: CacheState, i: nat, j: nat, p: nat)
    requires Coherent(g, s) && i < NUM_LINES && j < NUM_LINES && s.lines[i].valid && s.lines[j].valid
    requires g.Covers(s.lines[i], p) && g.Covers(s.lines[j], p)
    ensures i == j
  {
    g.CoverUnique(s.lines[i].index, s.lines[j].index, p);
  }

  lemma LateAgrees(g: Geometry, s: CacheState, index: nat, numBlocks: nat, buf: seq<Byte>, k: nat, block: nat, lo: nat, tail: seq<Byte>)
    requires TailOk(g, s, index, numBlocks, buf, block, lo, tail) && k < NUM_LINES && s.lines[k].dirty
    requires AllRead(g, StoredIn(g, Refilled(g, Bypassed(g, s, index, numBlocks, buf), k, block), k, lo, tail))
    ensures Agrees(g, s.lines[k], index, buf)
  {
    hide Splice, Scale, StoredIn, Refilled, Evicted, Reads;
    forall p | g.At(index) <= p < g.At(index) + |buf| && g.Covers(s.lines[k], p)
      ensures s.lines[k].data[p - g.At(s.lines[k].index)] == buf[p - g.At(index)]
    {
      TailReads(g, s, index, numBlocks, buf, k, block, lo, tail, p);
      LateIs(g, s, index, numBlocks, buf, k, p);
      forall i | 0 <= i < NUM_LINES && i != k && s.lines[i].valid ensures !g.Covers(s.lines[i], p) {
        if g.Covers(s.lines[i], p) {
          OneCovers(g, s, i, k, p);
        }
      }
    }
  }

  lemma BesideReads(g: Geometry, s: CacheState, index: nat, numBlocks: nat, buf: seq<Byte>, k: nat, block: nat, lo: nat, tail: seq<Byte>, i: nat, p: int)
    requires TailOk(g, s, index, numBlocks, buf, block, lo, tail) && k < NUM_LINES && i < NUM_LINES && i != k
    requires Beside(g, s.lines[i], p, index, numBlocks) && !(g.At(block) + lo <= p < g.At(block) + lo + |tail|)
    requires AllRead(g, StoredIn(g, Refilled(g, Bypassed(g, s, index, numBlocks, buf), k, block), k, lo, tail))
    ensures OnDevice(s, p)
  {
    hide Splice, Scale, StoredIn, Refilled, Evicted, Reads;
    TailReads(g, s, index, numBlocks, buf, k, block, lo, tail, p);
    LateIs(g, s, index, numBlocks, buf, k, p);
    forall j | 0 <= j < NUM_LINES && j != i && s.lines[j].valid ensures !g.Covers(s.lines[j], p) {
      if g.Covers(s.lines[j], p) {
        OneCovers(g, s, i, j, p);
      }
    }
  }

  lemma TailReadsHere(g: Geometry, s: CacheState, index: nat, numBlocks: nat, buf: seq<Byte>, k: nat, block: nat, lo: nat, tail: seq<Byte>, p: nat)
    requires TailOk(g, s, index, numBlocks, buf, block, lo, tail) && k < NUM_LINES && p < |s.disk|
    requires TailNoneAhead(g, s, index, numBlocks, buf, k, g.At(block) + lo, g.At(block) + lo + |tail|)
    ensures var v := StoredIn(g, Refilled(g, Bypassed(g, s, index, numBlocks, buf), k, block), k, lo, tail);
      Reads(g, v, p, v.bytes[p])
  {
    hide Splice, Scale, StoredIn, Refilled, Evicted, Reads, Bypassed, Beside, TailNoneAhead, CoherentBut, LinesOk;
    TailReads(g, s, index, numBlocks, buf, k, block, lo, tail, p);
    if !(g.At(block) + lo <= p < g.At(block) + lo + |tail|) {
      LateRight(g, s, index, numBlocks, buf, k, g.At(block) + lo, g.At(block) + lo + |tail|, p);
    }
  }

  lemma LateRight(g: Geometry, s: CacheState, index: nat, numBlocks: nat, buf: seq<Byte>, k: nat, from: nat, to: nat, p: nat)
    requires Coherent(g, s) && g.At(index) + |buf| == g.At(index + numBlocks) <= |s.disk| && k < NUM_LINES && p < |s.disk|
    requires TailNoneAhead(g, s, index, numBlocks, buf, k, from, to) && !(from <= p < to)
    ensures var t := Bypassed(g, s, index, numBlocks, buf);
      || (exists i :: 0 <= i < NUM_LINES && i != k && t.lines[i].valid && g.Covers(t.lines[i], p))
      || Evicted(g, t, k).disk[p] == t.bytes[p]
  {
    hide Splice, Scale, Evicted;
    LateIs(g, s, index, numBlocks, buf, k, p);
    if s.lines[k].dirty && g.Covers(s.lines[k], p) {
      if g.At(index) <= p < g.At(index + numBlocks) {
        OverlapTouches(g, s.lines[k], index, numBlocks, p);
      }
    } else if !(g.At(index) <= p < g.At(index + numBlocks)) && s.bytes[p] != s.disk[p] {
      AheadUntouched(g, s, index, numBlocks, buf, k, from, to, p);
    }
  }

  lemma AheadUntouched(g: Geometry, s: CacheState, index: nat, numBlocks: nat, buf: seq<Byte>, k: nat, from: nat, to: nat, p: nat)
    requires Coherent(g, s) && g.At(index) + |buf| == g.At(index + numBlocks) <= |s.disk| && k < NUM_LINES && p < |s.disk|
    requires TailNoneAhead(g, s, index, numBlocks, buf, k, from, to) && !(from <= p < to)
    requires !(s.lines[k].dirty && g.Covers(s.lines[k], p))
    requires !(g.At(index) <= p < g.At(index + numBlocks)) && s.bytes[p] != s.disk[p]
    ensures var t := Bypassed(g, s, index, numBlocks, buf);
      exists i :: 0 <= i < NUM_LINES && i != k && t.lines[i].valid && g.Covers(t.lines[i], p)
  {
    hide Splice, Scale, Agrees;
    var j :| 0 <= j < NUM_LINES && s.lines[j].dirty && g.Covers(s.lines[j], p);
    assert s.lines[j].valid && !OnDevice(s, p);
    assert !Beside(g, s.lines[j], p, index, numBlocks);
    assert Bypassed(g, s, index, numBlocks, buf).lines[j] == s.lines[j];
  }

  /** Then every byte reads right, and only then. */
  lemma TailReadsIff(g: Geometry, s: CacheState, index: nat, numBlocks: nat, buf: seq<Byte>, last: nat, block: nat, lo: nat, tail: seq<Byte>)
    requires TailOk(g, s, index, numBlocks, buf, block, lo, tail)
    ensures AllRead(g, BlockWritten(g, Bypassed(g, s, index, numBlocks, buf), last, block, lo, tail).0)
       <==> TailNoneAhead(g, s, index, numBlocks, buf, (last + 1) % NUM_LINES, g.At(block) + lo, g.At(block) + lo + |tail|)
  {
    hide Splice, Scale, Reads, LinesOk, Agrees, Beside, OnDevice;
    var t, k := Bypassed(g, s, index, numBlocks, buf), (last + 1) % NUM_LINES;
    var v := BlockWritten(g, t, last, block, lo, tail).0;
    var from, to := g.At(block) + lo, g.At(block) + lo + |tail|;
    assert SlotOf(t.lines, block, 0) == NUM_LINES;
    assert v == StoredIn(g, Refilled(g, t, k, block), k, lo, tail);
    hide BlockWritten, StoredIn, Refilled, Bypassed;
    if AllRead(g, v) {
      if s.lines[k].dirty && g.Touches(s.lines[k].index, index, numBlocks) {
        LateAgrees(g, s, index, numBlocks, buf, k, block, lo, tail);
      }
      forall i, p | 0 <= i < |s.lines| && i != k && !(from <= p < to) && Beside(g, s.lines[i], p, index, numBlocks) ensures OnDevice(s, p) {
        BesideReads(g, s, index, numBlocks, buf, k, block, lo, tail, i, p);
      }
    }
    if TailNoneAhead(g, s, index, numBlocks, buf, k, from, to) {
      forall p: nat | p < |v.disk| ensures Reads(g, v, p, v.bytes[p]) {
        TailReadsHere(g, s, index, numBlocks, buf, k, block, lo, tail, p);
      }
    }
  }

  /** Three two-byte blocks, all zero on the device; byte 0 has just been set to one through the cache. */
  ghost predicate Example(g: Geometry, s: CacheState) {
    && g == Geometry(2, 1, 3, false)
    && |s.lines| == NUM_LINES && s.lines[0] == CachedBlock(0, s.lines[0].data, true, true)
    && (forall i :: 1 <= i < NUM_LINES ==> s.lines[i] == CachedBlock(0, [], false, false))
    && |s.lines[0].data| == 2 && s.lines[0].data[0] == 1 && s.lines[0].data[1] == 0
    && |s.disk| == |s.bytes| == 6
    && (forall p :: 0 <= p < 6 ==> s.disk[p] == 0 && s.bytes[p] == if p == 0 then 1 else 0)
  }

  lemma ExampleIsCoherent(g: Geometry, s: CacheState)
    requires Example(g, s)
    ensures Coherent(g, s) && g.At(1) == 2 && g.At(3) == 6 && g.LineBytes() == 2
  {
    hide Rem, Quot;
    RemOfZero(1);
    assert g.At(0) == 0 && g.At(1) == 2 && g.At(3) == 6;
    assert LinesOk(g, s);
    assert g.Covers(s.lines[0], 0);
    assert DirtyAt(g, s.lines, 0);
    forall i, p | 0 <= i < NUM_LINES && s.lines[i].valid && g.Covers(s.lines[i], p)
      ensures s.lines[i].data[p - g.At(s.lines[i].index)] == s.bytes[p]
    {
      assert i == 0 && (p == 0 || p == 1);
    }
  }

  /** A lost byte: writing blocks 1 and 2 straight to the device makes byte 0 read something else than the 1 written. */
  lemma LostByteExample(g: Geometry, s: CacheState, buf: seq<Byte>)
    requires Example(g, s) && |buf| == 4
    ensures g.At(1) + |buf| <= |s.disk|
    ensures var t := CacheState(Invalidated(g, s.lines, 1, 2), Splice(s.disk, g.At(1), buf), Splice(s.bytes, g.At(1), buf));
      Coherent(g, s) && Shape(g, t) && t.bytes[0] == 1 && !Reads(g, t, 0, 1)
  {
    ExampleIsCoherent(g, s);
    assert g.Covers(s.lines[0], 0) && g.Touches(s.lines[0].index, 1, 2);
    DirectWriteForgets(g, s, 1, 2, buf, 0, 0);
  }
}

module BlockCache {
  import opened Bytes
  import opened Chunks
  import opened CacheModel

  const DEFAULT_CACHE_SIZE: nat := 1024

  /** How many blocks one cache line holds. */
  function CalcBlockRatio(blockSize: nat, cacheSize: nat): (r: nat)
    requires blockSize > 0
  {
    if blockSize > cacheSize || Rem(cacheSize, blockSize) != 0 then 1 else Quot(cacheSize, blockSize)
  }

  /** A line is a whole number of blocks: the cache size when blocks divide it, one block otherwise. */
  lemma BlockRatioFillsLine(blockSize: nat, cacheSize: nat)
    requires 0 < blockSize && 0 < cacheSize
    ensures CalcBlockRatio(blockSize, cacheSize) >= 1
    ensures if blockSize <= cacheSize && Rem(cacheSize, blockSize) == 0
            then CalcBlockRatio(blockSize, cacheSize) * blockSize == cacheSize
            else CalcBlockRatio(blockSize, cacheSize) == 1
  {
  }

  datatype DiskOp =
    | Write(blockNum: nat, offset: nat, buf: seq<Byte>)
    | Read(blockNum: nat, offset: nat, numBytes: nat)
  {
    function Size(): nat { if Write? then |buf| else numBytes }
  }

  predicate InBounds(op: DiskOp, blockSize: nat, diskSize: nat) {
    && op.offset < 0x1_0000_0000 && op.Size() < 0x1_0000_0000
    && Scale(op.blockNum, blockSize) + op.offset + op.Size() <= diskSize
  }

  /** What a plain array of bytes does with one operation: its new contents and what a read returns. */
  function FlatStep(s: seq<Byte>, op: DiskOp, blockSize: nat): (r: (seq<Byte>, seq<seq<Byte>>))
    requires InBounds(op, blockSize, |s|)
    ensures |r.0| == |s|
  {
    var at := Scale(op.blockNum, blockSize) + op.offset;
    match op
    case Write(_, _, buf) => (Splice(s, at, buf), [])
    case Read(_, _, n) => (s, [s[at..at + n]])
  }

  /** The same for a run of operations. */
  function FlatRun(s: seq<Byte>, ops: seq<DiskOp>, blockSize: nat): (r: (seq<Byte>, seq<seq<Byte>>))
    requires forall i :: 0 <= i < |ops| ==> InBounds(ops[i], blockSize, |s|)
    ensures |r.0| == |s|
  {
    if ops == [] then (s, [])
    else
      var before := FlatRun(s, ops[..|ops| - 1], blockSize);
      var last := FlatStep(before.0, ops[|ops| - 1], blockSize);
      (last.0, before.1 + last.1)
  }

  lemma FlatRunNext(s: seq<Byte>, ops: seq<DiskOp>, k: nat, blockSize: nat)
    requires k < |ops| && forall i :: 0 <= i < |ops| ==> InBounds(ops[i], blockSize, |s|)
    ensures var before := FlatRun(s, ops[..k], blockSize);
      var last := FlatStep(before.0, ops[k], blockSize);
      FlatRun(s, ops[..k + 1], blockSize) == (last.0, before.1 + last.1)
  {
    assert ops[..k + 1][..k] == ops[..k];
  }

  class FilesystemDrive {
    const g: Geometry
    const lines: array<CachedBlock>
    var lastIndex: nat
    var disk: seq<Byte>         // what the device holds
    ghost var bytes: seq<Byte>  // the flat disk a client believes in

    ghost function View(): CacheState
      reads this, lines
    {
      CacheState(lines[..], disk, bytes)
    }

    ghost predicate Ok()
      reads this, lines
    {
      Shape(g, View()) && lastIndex < NUM_LINES
    }

    /** The cache and the device together hold exactly `bytes`. */
    ghost predicate Valid()
      reads this, lines
    {
      Ok() && Coherent(g, View())
    }

    /** The writes whose direct path drops data: whole blocks go straight to the device while a line passing the
        overlap test is dirty. A partial head makes its own line dirty, and that line always passes the test. */
    predicate Hazard(blockNum: nat, offset: nat, numBytes: nat)
      requires g.blockSize > 0
      reads lines
    {
      var c := Chunkify(offset, numBytes, g.blockSize);
      var direct := !g.needsBuffer && c.numFullChunks > 1;
      && !g.ByteAccess()
      && ((direct && c.startSize != 0) || Drops(blockNum + c.startChunk, c.numFullChunks))
    }

    /** Whole blocks from `block` on would go to the device past a dirty line. */
    predicate Drops(block: nat, numBlocks: nat)
      reads lines
    {
      !g.needsBuffer && numBlocks > 1 && TouchesDirty(g, lines[..], block, numBlocks)
    }

    /** A new drive. `garbage` is the index of a slot that was never assigned, which the source leaves indeterminate. */
    constructor (contents: seq<Byte>, blockSize: nat, needsBuffer: bool, slots: nat, garbage: nat)
      requires blockSize > 0
      requires (blockSize == 1 && !needsBuffer)
            || |contents| == Scale(slots, Scale(CalcBlockRatio(blockSize, DEFAULT_CACHE_SIZE), blockSize))
      ensures Valid() && fresh(lines) && bytes == disk == contents
      ensures g == Geometry(blockSize, CalcBlockRatio(blockSize, DEFAULT_CACHE_SIZE), slots, needsBuffer)
      ensures forall i :: 0 <= i < NUM_LINES ==> !lines[i].dirty
    {
      BlockRatioFillsLine(blockSize, DEFAULT_CACHE_SIZE);
      g := Geometry(blockSize, CalcBlockRatio(blockSize, DEFAULT_CACHE_SIZE), slots, needsBuffer);
      lines := new CachedBlock[NUM_LINES](_ => CachedBlock(garbage, [], false, false));
      lastIndex := 0;
      disk := contents;
      bytes := contents;
    }

    /** Write a dirty line back and mark it clean. */
    method WriteBack(i: nat)
      requires Ok() && i < NUM_LINES
      modifies this`disk, lines
      ensures Ok() && lines[..] == CleanLine(old(lines[..]), i)
      ensures disk == if old(lines[i]).dirty then Splice(old(disk), g.At(lines[i].index), lines[i].data) else old(disk)
      ensures old(Valid()) ==> Valid()
    {
      ghost var s := View();
      if lines[i].dirty {
        disk := Splice(disk, g.At(lines[i].index), lines[i].data);
        lines[i] := lines[i].(dirty := false);
        assert View() == s.(disk := disk, lines := CleanLine(s.lines, i));
        if Coherent(g, s) {
          WriteBackKeeps(g, s, i);
        }
      } else {
        assert lines[..] == CleanLine(s.lines, i);
      }
    }

    method BlockFlush(index: nat, numBlocks: nat)
      requires Valid()
      modifies this`disk, lines
      ensures Valid() && |disk| == old(|disk|)
      ensures !TouchesDirty(g, lines[..], index, numBlocks)
      ensures forall j :: 0 <= j < NUM_LINES ==>
        lines[j] == if g.Touches(lines[j].index, index, numBlocks) then old(lines[j]).(dirty := false) else old(lines[j])
    {
      for i := 0 to NUM_LINES
        invariant Valid() && |disk| == old(|disk|)
        invariant forall j :: 0 <= j < NUM_LINES ==>
          lines[j] == if j < i && g.Touches(old(lines[j]).index, index, numBlocks) then old(lines[j]).(dirty := false) else old(lines[j])
        invariant forall j :: 0 <= j < i && lines[j].dirty ==> !g.Touches(lines[j].index, index, numBlocks)
      {
        if g.Touches(lines[i].index, index, numBlocks) {
          label before:
          WriteBack(i);
          assert forall j :: 0 <= j < NUM_LINES ==> lines[j] == CleanLine(old@before(lines[..]), i)[j];
        }
      }
    }

    method BlockInvalidate(index: nat, numBlocks: nat)
      requires Ok()
      modifies lines
      ensures Ok() && lines[..] == Invalidated(g, old(lines[..]), index, numBlocks)
    {
      for i := 0 to NUM_LINES
        invariant forall j :: 0 <= j < i ==> lines[j] == Invalidated(g, old(lines[..]), index, numBlocks)[j]
        invariant forall j :: i <= j < NUM_LINES ==> lines[j] == old(lines[j])
      {
        if g.Touches(lines[i].index, index, numBlocks) {
          lines[i] := lines[i].(valid := false);
        }
      }
    }

    method FindLine(block: nat) returns (it: nat)
      requires Ok()
      ensures it <= NUM_LINES
      ensures it < NUM_LINES ==> lines[it].valid && lines[it].index == block
      ensures forall j :: 0 <= j < it ==> !(lines[j].valid && lines[j].index == block)
      ensures it == SlotOf(lines[..], block, 0)
    {
      it := 0;
      while it < NUM_LINES && !(block == lines[it].index && lines[it].valid)
        invariant it <= NUM_LINES
        invariant forall j :: 0 <= j < it ==> !(lines[j].valid && lines[j].index == block)
      {
        it := it + 1;
      }
      SlotIsFirst(lines[..], block, 0, it);
    }

    /** The state is that of `was` with slot `k` given to line `block`. */
    ghost predicate Refill(was: CacheState, k: nat, block: nat)
      reads this, lines
    {
      && g.Ok() && Shape(g, was) && k < NUM_LINES && Rem(block, g.blocksPerCache) == 0 && g.At(block) + g.LineBytes() <= |was.disk|
      && View() == Refilled(g, was, k, block)
    }

    /** The line holding block `index`, brought in over the oldest slot if need be. A line about to be overwritten
        whole is not read from the device. The device keeps what it has for the line returned. */
    method BlockRw(index: nat, writeAll: bool) returns (it: nat)
      requires Ok() && !g.ByteAccess() && g.At(index) < |disk|
      modifies this`disk, this`lastIndex, lines
      ensures Ok() && it < NUM_LINES && |disk| == old(|disk|)
      ensures lines[it].valid && lines[it].index == g.AlignedBlock(index)
      ensures old(Valid()) ==> CoherentBut(g, View(), it) && (!writeAll ==> Valid())
      ensures old(Valid()) ==> LineOf(g, disk, lines[it].index) == LineOf(g, old(disk), lines[it].index)
      ensures var k := SlotOf(old(lines[..]), g.AlignedBlock(index), 0);
        if k < NUM_LINES then it == k && View() == old(View()) && lastIndex == old(lastIndex)
        else it == lastIndex == (old(lastIndex) + 1) % NUM_LINES && (!writeAll ==> Refill(old(View()), it, g.AlignedBlock(index)))
    {
      g.LineOnDisk(index);
      it := FindLine(g.AlignedBlock(index));
      if it == NUM_LINES {
        it := RefreshOldest(g.AlignedBlock(index), writeAll);
      }
    }

    /** The miss path: evict the next slot in FIFO order and give it to `block`. */
    method RefreshOldest(block: nat, writeAll: bool) returns (it: nat)
      requires Ok() && !g.ByteAccess()
      requires Rem(block, g.blocksPerCache) == 0 && g.At(block) + g.LineBytes() <= |disk|
      requires forall j :: 0 <= j < NUM_LINES ==> !(lines[j].valid && lines[j].index == block)
      modifies this`disk, this`lastIndex, lines
      ensures Ok() && it < NUM_LINES && |disk| == old(|disk|)
      ensures lines[it].valid && lines[it].index == block
      ensures old(Valid()) ==> CoherentBut(g, View(), it) && (!writeAll ==> Valid())
      ensures old(Valid()) ==> LineOf(g, disk, lines[it].index) == LineOf(g, old(disk), lines[it].index)
      ensures it == lastIndex == (old(lastIndex) + 1) % NUM_LINES && (!writeAll ==> Refill(old(View()), it, block))
    {
      hide CoherentBut, Scale;
      g.LineBytesPositive();
      lastIndex := (lastIndex + 1) % NUM_LINES;
      it := lastIndex;
      ghost var s0 := View();
      WriteBack(it);
      ghost var s := View();
      var buffer := lines[it].data;
      if buffer == [] {
        buffer := seq(g.LineBytes(), _ => 0);
      }
      assert |buffer| == g.LineBytes() && buffer != [];
      if !writeAll {
        buffer := disk[g.At(block)..g.At(block) + g.LineBytes()];
      }
      ghost var line := CachedBlock(block, buffer, false, true);
      lines[it] := CachedBlock(block, buffer, false, true);
      assert View() == s.(lines := s.lines[it := line]);
      FillShape(g, s, it, line);
      if Coherent(g, s0) {
        if s0.lines[it].dirty {
          EvictionIsElsewhere(g, s0, it, block);
        }
        FillKeeps(g, s, it, block, buffer);
      }
    }

    /** Whether `n` bytes at `offset` in `block` stay inside the block's cache line. */
    predicate InLine(block: nat, offset: nat, n: nat)
      requires g.Ok()
    {
      g.At(block) + offset + n <= g.At(g.AlignedBlock(block)) + g.LineBytes()
    }

    /** The line of the block lies on a device of this size, and the bytes in the line. */
    ghost predicate Writable(was: CacheState, block: nat, offset: nat, n: nat) {
      && g.Ok() && Shape(g, was) && g.At(g.AlignedBlock(block)) + g.LineBytes() <= |was.disk| && InLine(block, offset, n)
      && g.At(block) == g.At(g.AlignedBlock(block)) + g.At(block - g.AlignedBlock(block))
    }

    /** The cache and the last slot filled, after `buf` was written in block `block`, if there is anything to write. */
    ghost function PartDone(was: CacheState, last: nat, block: nat, offset: nat, buf: seq<Byte>): (CacheState, nat)
      requires buf != [] ==> Writable(was, block, offset, |buf|)
    {
      if buf == [] then (was, last)
      else BlockWritten(g, was, last, g.AlignedBlock(block), g.At(block - g.AlignedBlock(block)) + offset, buf)
    }

    method WriteToBlock(block: nat, offset: nat, buf: seq<Byte>)
      requires Ok() && !g.ByteAccess() && g.At(block) < |disk| && InLine(block, offset, |buf|)
      modifies this, lines
      ensures Ok() && |disk| == old(|disk|) && g.At(block) + offset + |buf| <= |disk|
      ensures g.At(g.AlignedBlock(block)) + g.LineBytes() <= |disk|
      ensures bytes == Splice(old(bytes), g.At(block) + offset, buf)
      ensures old(Valid()) ==> Valid()
      ensures old(Valid()) ==> LineOf(g, disk, g.AlignedBlock(block)) == LineOf(g, old(disk), g.AlignedBlock(block))
      ensures exists it :: 0 <= it < NUM_LINES && lines[it].dirty && lines[it].index == g.AlignedBlock(block)
      ensures Writable(old(View()), block, offset, |buf|)
      ensures 0 < |buf| < g.LineBytes() ==> (View(), lastIndex) == PartDone(old(View()), old(lastIndex), block, offset, buf)
    {
      hide CoherentBut, Splice, Scale, BlockWritten, LinesOk;
      g.LineOnDisk(block);
      var it := BlockRw(block, |buf| == g.LineBytes());
      ghost var s, last := View(), lastIndex;
      var lo := g.At(block - lines[it].index) + offset;
      StoreFits(g, s, it, lo, buf);
      lines[it] := lines[it].(data := Splice(lines[it].data, lo, buf), dirty := true);
      bytes := Splice(bytes, g.At(block) + offset, buf);
      assert View() == StoredIn(g, s, it, lo, buf);
      if |buf| < g.LineBytes() {
        WrittenIs(g, old(View()), old(lastIndex), s, last, it, g.AlignedBlock(block), lo, buf);
      }
      hide StoredIn;
      if old(Valid()) {
        StoreKeeps(g, s, it, lo, buf);
      }
    }

    method ReadFromBlock(block: nat, offset: nat, numBytes: nat) returns (out: seq<Byte>)
      requires Valid() && !g.ByteAccess() && g.At(block) < |disk| && InLine(block, offset, numBytes)
      modifies this`disk, this`lastIndex, lines
      ensures Valid() && |disk| == old(|disk|) && bytes == old(bytes) && g.At(block) + offset + numBytes <= |disk|
      ensures out == bytes[g.At(block) + offset..g.At(block) + offset + numBytes]
    {
      hide CoherentBut, Scale, LinesOk, Refilled, SlotOf;
      g.LineOnDisk(block);
      var it := BlockRw(block, false);
      var lo := g.At(block - lines[it].index) + offset;
      StoreFits(g, View(), it, lo, seq(numBytes, _ => 0));
      out := lines[it].data[lo..lo + numBytes];
      CachedBytes(g, View(), it, lo, numBytes);
    }

    /** Whole blocks written past the cache (drives.cpp:545-547). */
    method DirectWrite(block: nat, numBlocks: nat, buf: seq<Byte>)
      requires Ok() && g.At(block) + |buf| == g.At(block + numBlocks) <= |disk|
      modifies this, lines
      ensures Ok() && |disk| == old(|disk|)
      ensures View() == Bypassed(g, old(View()), block, numBlocks, buf) && lastIndex == old(lastIndex)
      ensures old(Valid()) ==> (Valid() <==> !old(TouchesDirty(g, lines[..], block, numBlocks)))
    {
      if Valid() {
        DirectWriteKeepsIff(g, View(), block, numBlocks, buf);
      }
      BlockInvalidate(block, numBlocks);
      disk := Splice(disk, g.At(block), buf);
      bytes := Splice(bytes, g.At(block), buf);
      assert View() == CacheState(Invalidated(g, old(lines[..]), block, numBlocks), disk, bytes);
    }

    /** Where the pieces of a request lie: they are consecutive and on the device. */
    lemma PiecesOnDisk(blockNum: nat, offset: nat, n: nat)
      requires Ok() && g.blockSize < 0x1_0000_0000 && offset < 0x1_0000_0000 && n < 0x1_0000_0000
      ensures var c := Chunkify(offset, n, g.blockSize);
        var at, block := g.At(blockNum) + offset, blockNum + c.startChunk;
        && c.startSize + g.At(c.numFullChunks) + c.endSize == n
        && c.startSize < g.blockSize && c.startOffset + c.startSize <= g.blockSize && c.endSize < g.blockSize
        && g.At(block) + c.startOffset == at
        && (c.numFullChunks == 0 ==> g.At(c.numFullChunks) == 0)
        && (c.numFullChunks > 0 || c.endSize > 0 ==> g.At(block + HeadChunks(c)) == at + c.startSize)
        && g.At(block + HeadChunks(c) + c.numFullChunks) == g.At(block + HeadChunks(c)) + g.At(c.numFullChunks)
    {
      hide Scale, Quot, Rem;
      NoScale(g.blockSize);
      var c := Chunkify(offset, n, g.blockSize);
      QuotSmall(offset, g.blockSize);
      ChunkifyTiles(offset, n, g.blockSize);
      ScaleIsProduct(c.startChunk, g.blockSize);
      ScaleIsProduct(c.startChunk + HeadChunks(c), g.blockSize);
      ScaleIsProduct(c.numFullChunks, g.blockSize);
      ScaleAdd(blockNum, c.startChunk, g.blockSize);
      ScaleAdd(blockNum, c.startChunk + HeadChunks(c), g.blockSize);
      ScaleAdd(blockNum + c.startChunk + HeadChunks(c), c.numFullChunks, g.blockSize);
    }

    /** Whole blocks written one at a time through the cache (drives.cpp:553-558). */
    method WriteBlocks(block: nat, numBlocks: nat, buf: seq<Byte>)
      requires Valid() && !g.ByteAccess()
      requires |buf| == g.At(numBlocks) && g.At(block) + |buf| <= |disk|
      modifies this, lines
      ensures Valid() && |disk| == old(|disk|) && bytes == Splice(old(bytes), g.At(block), buf)
    {
      hide CoherentBut, LinesOk, Splice, Scale;
      SpliceNothing(bytes, g.At(block), buf[..0]);
      NoScale(g.blockSize);
      for i := 0 to numBlocks
        invariant Valid() && |disk| == old(|disk|)
        invariant g.At(i) <= |buf| && bytes == Splice(old(bytes), g.At(block), buf[..g.At(i)])
      {
        ScaleAdd(block, i, g.blockSize);
        NextScale(i, g.blockSize);
        NextScale(block + i, g.blockSize);
        ScaleMono(i + 1, numBlocks, g.blockSize);
        g.LineOnDisk(block + i);
        ghost var mid := bytes;
        WriteToBlock(block + i, 0, buf[g.At(i)..g.At(i + 1)]);
        SpliceNext(old(bytes), mid, bytes, g.At(block), buf, g.At(i), g.At(i + 1), g.At(block + i));
      }
      assert buf[..|buf|] == buf;
    }

    /** The whole blocks of a request: straight to the device, or one by one through the cache. */
    method WriteWhole(block: nat, numBlocks: nat, buf: seq<Byte>)
      requires Valid() && !g.ByteAccess() && |buf| == g.At(numBlocks) && g.At(block) + |buf| <= |disk|
      requires g.At(block + numBlocks) == g.At(block) + g.At(numBlocks)
      modifies this, lines
      ensures Ok() && |disk| == old(|disk|) && bytes == Splice(old(bytes), g.At(block), buf)
      ensures Valid() <==> !(!g.needsBuffer && numBlocks > 1 && old(TouchesDirty(g, lines[..], block, numBlocks)))
      ensures !g.needsBuffer && numBlocks > 1 ==>
        View() == Bypassed(g, old(View()), block, numBlocks, buf) && lastIndex == old(lastIndex)
    {
      if !g.needsBuffer && numBlocks > 1 {
        DirectWrite(block, numBlocks, buf);
      } else {
        WriteBlocks(block, numBlocks, buf);
      }
    }

    /** A partial block, which may be empty. */
    method WritePart(block: nat, offset: nat, buf: seq<Byte>)
      requires Ok() && !g.ByteAccess() && offset + |buf| <= g.blockSize && g.At(block) + offset + |buf| <= |disk|
      modifies this, lines
      ensures Ok() && |disk| == old(|disk|) && bytes == Splice(old(bytes), g.At(block) + offset, buf)
      ensures old(Valid()) ==> Valid()
      ensures buf == [] ==> unchanged(this) && unchanged(lines)
      ensures buf != [] ==> TouchesDirty(g, lines[..], block + 1, 0)
      ensures buf != [] ==> Writable(old(View()), block, offset, |buf|)
      ensures |buf| < g.blockSize ==> (View(), lastIndex) == PartDone(old(View()), old(lastIndex), block, offset, buf)
    {
      if |buf| != 0 {
        ScaleMono(1, g.blocksPerCache, g.blockSize);
        NextScale(0, g.blockSize);
        g.LineOnDisk(block);
        WriteToBlock(block, offset, buf);
        DirtyHeadTouches(block);
      }
    }

    /** A device with byte access has no use for the cache. */
    method WriteBytes(at: nat, buf: seq<Byte>)
      requires Valid() && g.ByteAccess() && at + |buf| <= |disk|
      modifies this`disk, this`bytes
      ensures Valid() && |disk| == old(|disk|) && bytes == Splice(old(bytes), at, buf)
    {
      disk := Splice(disk, at, buf);
      bytes := Splice(bytes, at, buf);
      assert disk == bytes;
    }

    /** The part of a request that starts on a block boundary: whole blocks, then a partial tail. */
    method WriteAligned(block: nat, numBlocks: nat, buf: seq<Byte>)
      requires Valid() && !g.ByteAccess() && g.At(numBlocks) <= |buf| < g.At(numBlocks) + g.blockSize
      requires buf != [] ==> g.At(block + numBlocks) == g.At(block) + g.At(numBlocks) && g.At(block) + |buf| <= |disk|
      modifies this, lines
      ensures Ok() && |disk| == old(|disk|)
      ensures buf == [] ==> Valid() && bytes == old(bytes)
      ensures buf != [] ==> bytes == Splice(old(bytes), g.At(block), buf)
      ensures !old(Drops(block, numBlocks)) ==> Valid()
      ensures old(Drops(block, numBlocks)) ==>
        (Valid() <==> TailMends(old(View()), old(lastIndex), block, numBlocks, buf))
      ensures old(Drops(block, numBlocks)) ==>
        (AllRead(g, View()) <==> StillRead(old(View()), old(lastIndex), block, numBlocks, buf))
    {
      hide CoherentBut, LinesOk, TouchesDirty, Splice, Scale, OnlyHarmless, Bypassed, Writable, PartDone, NoneAhead, TailNoneAhead, AllRead;
      var j := g.At(numBlocks);
      ScaleMono(0, numBlocks, g.blockSize);
      if numBlocks != 0 {
        WriteWhole(block, numBlocks, buf[..j]);
        if old(Drops(block, numBlocks)) {
          BypassReadsIff(g, old(View()), block, numBlocks, buf[..j]);
        }
      } else if buf != [] {
        SpliceNothing(bytes, g.At(block), buf[..j]);
      }
      if j < |buf| {
        ghost var mid, t, last := bytes, View(), lastIndex;
        WritePart(block + numBlocks, 0, buf[j..]);
        assert buf[j..] == buf[j..|buf|];
        if old(Drops(block, numBlocks)) {
          TailDecides(old(View()), t, last, block, numBlocks, buf[..j], buf[j..]);
        }
        SpliceNext(old(bytes), mid, bytes, g.At(block), buf, j, |buf|, g.At(block + numBlocks));
      }
      assert buf[..|buf|] == buf;
    }

    function Next(slot: nat): nat {
      (slot + 1) % NUM_LINES
    }

    /** The tail after a direct write evicts the next slot, and that decides. */
    lemma TailDecides(s: CacheState, t: CacheState, last: nat, block: nat, numBlocks: nat, run: seq<Byte>, tail: seq<Byte>)
      requires Ok() && !g.ByteAccess() && Shape(g, s) && Coherent(g, s)
      requires g.At(block) + |run| == g.At(block + numBlocks) <= |s.disk|
      requires t == Bypassed(g, s, block, numBlocks, run) && Writable(t, block + numBlocks, 0, |tail|) && tail != []
      requires View() == PartDone(t, last, block + numBlocks, 0, tail).0
      ensures Valid() <==> OnlyHarmless(g, s, block, numBlocks, run, Next(last))
      ensures AllRead(g, View()) <==> TailNoneAhead(g, s, block, numBlocks, run, Next(last), g.At(block + numBlocks), g.At(block + numBlocks) + |tail|)
    {
      hide CoherentBut, LinesOk, Splice, Scale, OnlyHarmless, Bypassed, BlockWritten, NoneAhead, TailNoneAhead, AllRead;
      var a := g.AlignedBlock(block + numBlocks);
      TailMendsIff(g, s, block, numBlocks, run, last, a, g.At(block + numBlocks - a), tail);
      TailReadsIff(g, s, block, numBlocks, run, last, a, g.At(block + numBlocks - a), tail);
    }

    /** A write past a dirty line that its own tail makes good again: once the head is done, the slot the tail evicts is
        that line's, no other dirty line passes the test, and it differs from what is written nowhere. */
    ghost predicate Mends(blockNum: nat, offset: nat, buf: seq<Byte>)
      requires Valid() && !g.ByteAccess() && g.blockSize < 0x1_0000_0000
      requires InBounds(Write(blockNum, offset, buf), g.blockSize, |disk|)
      reads this, lines
    {
      var c := Chunkify(offset, |buf|, g.blockSize);
      HeadFits(blockNum, offset, buf);
      var (s, last) := PartDone(View(), lastIndex, blockNum + c.startChunk, c.startOffset, buf[..c.startSize]);
      TailMends(s, last, blockNum + c.startChunk + HeadChunks(c), c.numFullChunks, buf[c.startSize..])
    }

    ghost predicate TailMends(s: CacheState, last: nat, block: nat, numBlocks: nat, buf: seq<Byte>) {
      g.Ok() && Shape(g, s) && g.At(numBlocks) < |buf| && OnlyHarmless(g, s, block, numBlocks, buf[..g.At(numBlocks)], Next(last))
    }

    /** A write past a dirty line after which every byte reads right all the same, whatever the cache keeps: once the head is
        done, no line it invalidates is ahead of the device outside what is written, but one the tail writes back. */
    ghost predicate Harmless(blockNum: nat, offset: nat, buf: seq<Byte>)
      requires Valid() && !g.ByteAccess() && g.blockSize < 0x1_0000_0000
      requires InBounds(Write(blockNum, offset, buf), g.blockSize, |disk|)
      reads this, lines
    {
      var c := Chunkify(offset, |buf|, g.blockSize);
      HeadFits(blockNum, offset, buf);
      var (s, last) := PartDone(View(), lastIndex, blockNum + c.startChunk, c.startOffset, buf[..c.startSize]);
      StillRead(s, last, blockNum + c.startChunk + HeadChunks(c), c.numFullChunks, buf[c.startSize..])
    }

    ghost predicate StillRead(s: CacheState, last: nat, block: nat, numBlocks: nat, buf: seq<Byte>) {
      && g.Ok() && Shape(g, s) && g.At(numBlocks) <= |buf|
      && if |buf| == g.At(numBlocks) then NoneAhead(g, s, block, numBlocks)
         else TailNoneAhead(g, s, block, numBlocks, buf[..g.At(numBlocks)], Next(last), g.At(block) + g.At(numBlocks), g.At(block) + |buf|)
    }

    lemma HeadFits(blockNum: nat, offset: nat, buf: seq<Byte>)
      requires Valid() && !g.ByteAccess() && g.blockSize < 0x1_0000_0000
      requires InBounds(Write(blockNum, offset, buf), g.blockSize, |disk|)
      ensures var c := Chunkify(offset, |buf|, g.blockSize);
        c.startSize <= |buf| && (c.startSize > 0 ==> Writable(View(), blockNum + c.startChunk, c.startOffset, c.startSize))
    {
      hide CoherentBut, Scale, Chunkify;
      var c := Chunkify(offset, |buf|, g.blockSize);
      PiecesOnDisk(blockNum, offset, |buf|);
      if c.startSize > 0 {
        g.LineOnDisk(blockNum + c.startChunk);
      }
    }

    /** Write `buf` at byte `offset` past block `blockNum`. */
    method WriteToDisk(blockNum: nat, offset: nat, buf: seq<Byte>)
      requires Valid() && InBounds(Write(blockNum, offset, buf), g.blockSize, |disk|) && g.blockSize < 0x1_0000_0000
      modifies this, lines
      ensures Ok() && |disk| == old(|disk|)
      ensures bytes == Splice(old(bytes), g.At(blockNum) + offset, buf)
      ensures !old(Hazard(blockNum, offset, |buf|)) ==> Valid()
      ensures old(Hazard(blockNum, offset, |buf|)) ==> (Valid() <==> old(Mends(blockNum, offset, buf)))
      ensures old(Hazard(blockNum, offset, |buf|)) ==> (AllRead(g, View()) <==> old(Harmless(blockNum, offset, buf)))
    {
      hide CoherentBut, LinesOk, TouchesDirty, Chunkify, Splice, Scale, TailMends, StillRead, AllRead, PartDone, Writable;
      if g.ByteAccess() {
        ScaleIsProduct(blockNum, 1);
        WriteBytes(blockNum + offset, buf);
        return;
      }
      var c := Chunkify(offset, |buf|, g.blockSize);
      PiecesOnDisk(blockNum, offset, |buf|);
      var i := c.startSize;
      var block := blockNum + c.startChunk;
      WritePart(block, c.startOffset, buf[..i]);
      block := block + HeadChunks(c);
      if i != 0 {
        LongerRunTouches(g, lines[..], block, c.numFullChunks);
      }
      ghost var mid := bytes;
      WriteAligned(block, c.numFullChunks, buf[i..]);
      if i < |buf| {
        assert buf[i..] == buf[i..|buf|];
        SpliceNext(old(bytes), mid, bytes, g.At(blockNum) + offset, buf, i, |buf|, g.At(block));
      }
      assert buf[..|buf|] == buf;
    }

    /** The line of the block just before a run always passes the overlap test. */
    lemma DirtyHeadTouches(block: nat)
      requires Ok()
      requires exists it :: 0 <= it < NUM_LINES && lines[it].dirty && lines[it].index == g.AlignedBlock(block)
      ensures TouchesDirty(g, lines[..], block + 1, 0)
    {
    }

    /** Whole blocks read one at a time through the cache (drives.cpp:602-607). */
    method ReadBlocks(block: nat, numBlocks: nat) returns (out: seq<Byte>)
      requires Valid() && !g.ByteAccess() && g.At(block) <= g.At(block + numBlocks) <= |disk|
      modifies this`disk, this`lastIndex, lines
      ensures Valid() && |disk| == old(|disk|)
      ensures out == bytes[g.At(block)..g.At(block + numBlocks)]
    {
      hide CoherentBut, LinesOk, Scale;
      out := [];
      for i := 0 to numBlocks
        invariant Valid() && |disk| == old(|disk|)
        invariant g.At(block) <= g.At(block + i) <= |disk|
        invariant out == bytes[g.At(block)..g.At(block + i)]
      {
        NextScale(block + i, g.blockSize);
        ScaleMono(block + i + 1, block + numBlocks, g.blockSize);
        g.LineOnDisk(block + i);
        var part := ReadFromBlock(block + i, 0, g.blockSize);
        out := out + part;
      }
    }

    /** Whole blocks of a read: flushed and read from the device, or one by one through the cache. */
    method ReadWhole(block: nat, numBlocks: nat) returns (out: seq<Byte>)
      requires Valid() && !g.ByteAccess() && g.At(block + numBlocks) <= |disk|
      modifies this`disk, this`lastIndex, lines
      ensures Valid() && |disk| == old(|disk|) && g.At(block) <= g.At(block + numBlocks)
      ensures out == bytes[g.At(block)..g.At(block + numBlocks)]
    {
      ScaleMono(block, block + numBlocks, g.blockSize);
      if !g.needsBuffer && numBlocks > 1 {
        BlockFlush(block, numBlocks);
        FlushedIsOnDisk(g, View(), block, numBlocks);
        out := disk[g.At(block)..g.At(block + numBlocks)];
      } else {
        out := ReadBlocks(block, numBlocks);
      }
    }

    method ReadPart(block: nat, offset: nat, n: nat) returns (out: seq<Byte>)
      requires Valid() && !g.ByteAccess() && offset + n <= g.blockSize && g.At(block) + offset + n <= |disk|
      modifies this`disk, this`lastIndex, lines
      ensures Valid() && |disk| == old(|disk|)
      ensures out == bytes[g.At(block) + offset..g.At(block) + offset + n]
    {
      out := [];
      if n != 0 {
        g.LineOnDisk(block);
        out := ReadFromBlock(block, offset, n);
      }
    }

    /** The part of a read that starts on a block boundary: whole blocks, then a partial tail. */
    method ReadAligned(block: nat, numBlocks: nat, tail: nat) returns (out: seq<Byte>)
      requires Valid() && !g.ByteAccess() && tail < g.blockSize && g.At(block + numBlocks) + tail <= |disk|
      modifies this`disk, this`lastIndex, lines
      ensures Valid() && |disk| == old(|disk|) && g.At(block) <= g.At(block + numBlocks)
      ensures out == bytes[g.At(block)..g.At(block + numBlocks) + tail]
    {
      hide CoherentBut, LinesOk, Scale;
      ScaleMono(block, block + numBlocks, g.blockSize);
      out := [];
      if numBlocks != 0 {
        out := ReadWhole(block, numBlocks);
      }
      if tail != 0 {
        ghost var a, b := g.At(block), g.At(block + numBlocks);
        var part := ReadPart(block + numBlocks, 0, tail);
        SliceJoin(bytes, out, part, a, b, b + tail);
        out := out + part;
      }
    }

    /** Read `numBytes` at byte `offset` past block `blockNum`: always the client's bytes. */
    method ReadFromDisk(blockNum: nat, offset: nat, numBytes: nat) returns (out: seq<Byte>)
      requires Valid() && InBounds(Read(blockNum, offset, numBytes), g.blockSize, |disk|) && g.blockSize < 0x1_0000_0000
      modifies this`disk, this`lastIndex, lines
      ensures Valid() && |disk| == old(|disk|)
      ensures out == bytes[g.At(blockNum) + offset..g.At(blockNum) + offset + numBytes]
    {
      hide CoherentBut, LinesOk, Chunkify, Scale, Splice;
      if g.ByteAccess() {
        ScaleIsProduct(blockNum, 1);
        NoCacheNoDifference(g, View());
        return disk[blockNum + offset..blockNum + offset + numBytes];
      }
      var c := Chunkify(offset, numBytes, g.blockSize);
      PiecesOnDisk(blockNum, offset, numBytes);
      ghost var at := g.At(blockNum) + offset;
      var block := blockNum + c.startChunk;
      out := ReadPart(block, c.startOffset, c.startSize);
      assert out == bytes[at..at + c.startSize];
      block := block + HeadChunks(c);
      if c.numFullChunks != 0 || c.endSize != 0 {
        var rest := ReadAligned(block, c.numFullChunks, c.endSize);
        SliceJoin(bytes, out, rest, at, at + c.startSize, at + numBytes);
        out := out + rest;
      }
    }

    /** A run of requests, up to the first write that would drop data: what the reads return and what the drive ends
        up holding is what a plain array of bytes would. A drive with its own buffers completes every run. */
    method Run(ops: seq<DiskOp>) returns (outs: seq<seq<Byte>>, done: nat)
      requires Valid() && 0 < g.blockSize < 0x1_0000_0000
      requires forall i :: 0 <= i < |ops| ==> InBounds(ops[i], g.blockSize, |disk|)
      modifies this, lines
      ensures Valid() && |disk| == old(|disk|) && done <= |ops|
      ensures (bytes, outs) == FlatRun(old(bytes), ops[..done], g.blockSize)
      ensures done < |ops| ==> ops[done].Write? && Hazard(ops[done].blockNum, ops[done].offset, |ops[done].buf|)
      ensures g.needsBuffer || g.ByteAccess() ==> done == |ops|
    {
      hide CoherentBut, LinesOk, TouchesDirty, Splice, Scale;
      outs, done := [], 0;
      while done < |ops|
        invariant Valid() && |disk| == old(|disk|) && done <= |ops|
        invariant (bytes, outs) == FlatRun(old(bytes), ops[..done], g.blockSize)
      {
        FlatRunNext(old(bytes), ops, done, g.blockSize);
        match ops[done] {
          case Write(blockNum, offset, buf) =>
            if Hazard(blockNum, offset, |buf|) {
              return;
            }
            WriteToDisk(blockNum, offset, buf);
            assert outs == outs + [];
          case Read(blockNum, offset, n) =>
            var out := ReadFromDisk(blockNum, offset, n);
            outs := outs + [out];
        }
        done := done + 1;
      }
      assert ops[..done] == ops;
    }
  }
}
