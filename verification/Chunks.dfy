/** How a byte range is cut into a partial head, whole chunks and a partial tail
    (kernel/filesystem/util.h). */
module Chunks {
  import opened Bytes

  datatype FsChunks = FsChunks(
    startChunk: nat,
    startOffset: nat,
    startSize: nat,
    numFullChunks: nat,
    endSize: nat)

  /** `chunkSize` is a power of two in the source, so its mask and shift are written as remainder and quotient;
      the chunk number is truncated to `size_t`, the offset is 64 bits wide and is not. */
  function Chunkify(offset: nat, length: nat, chunkSize: nat): FsChunks
    requires chunkSize > 0
  {
    var firstChunk := Trunc32(Quot(offset, chunkSize));
    var startOffset := Rem(offset, chunkSize);
    var lastChunk := Trunc32(Quot(offset + length, chunkSize));
    var endSize := if firstChunk == lastChunk then 0 else Rem(offset + length, chunkSize);
    var startSize := Rem(Trunc32(length - endSize), chunkSize);
    var numChunks := Quot(Trunc32(length - (startSize + endSize)), chunkSize);
    FsChunks(firstChunk, startOffset, startSize, numChunks, endSize)
  }

  /** Number of chunks before the whole ones: 1 if there is a partial head. */
  function HeadChunks(c: FsChunks): nat {
    if c.startSize != 0 then 1 else 0
  }

  /** The three pieces tile `[offset, offset + length)` exactly: the head ends on a chunk boundary unless it is
      the whole range, the whole chunks and the tail start on one, and nothing is left over. */
  ghost predicate Tiles(c: FsChunks, offset: nat, length: nat, chunkSize: nat) {
    && offset == c.startChunk * chunkSize + c.startOffset
    && c.startSize + c.numFullChunks * chunkSize + c.endSize == length
    && c.startOffset + c.startSize <= chunkSize
    && c.startSize < chunkSize && c.endSize < chunkSize
    && (c.numFullChunks > 0 || c.endSize > 0 ==>
          offset + c.startSize == (c.startChunk + HeadChunks(c)) * chunkSize)
  }

  /** The cut is a tiling exactly when the chunk number fits in `size_t`. */
  lemma ChunkifyTiles(offset: nat, length: nat, chunkSize: nat)
    requires 0 < chunkSize < 0x1_0000_0000 && length < 0x1_0000_0000
    ensures Tiles(Chunkify(offset, length, chunkSize), offset, length, chunkSize) <==> Quot(offset, chunkSize) < 0x1_0000_0000
  {
    var m := chunkSize;
    var first, so := Quot(offset, m), Rem(offset, m);
    var last, eo := Quot(offset + length, m), Rem(offset + length, m);
    var c := Chunkify(offset, length, m);
    if first >= 0x1_0000_0000 {
      assert c.startChunk < 0x1_0000_0000;
      MulMono(c.startChunk + 1, first, m);
      MulDistrib(c.startChunk, 1, m);
    } else {
      CutWithin(offset, length, m, first, so, last, eo);
    }
  }

  /** A range that does not reach the next chunk is all head. */
  lemma OneChunkIsHead(offset: nat, length: nat, chunkSize: nat)
    requires 0 < chunkSize < 0x1_0000_0000 && Quot(offset, chunkSize) < 0x1_0000_0000 && Rem(offset, chunkSize) + length < chunkSize
    ensures Chunkify(offset, length, chunkSize) == FsChunks(Quot(offset, chunkSize), Rem(offset, chunkSize), length, 0, 0)
  {
    QuotRemUnique(offset + length, chunkSize, Quot(offset, chunkSize), Rem(offset, chunkSize) + length);
    QuotRemUnique(length, chunkSize, 0, length);
    QuotRemUnique(0, chunkSize, 0, 0);
  }

  lemma CutWithin(offset: nat, length: nat, m: nat, first: nat, so: nat, last: nat, eo: nat)
    requires 0 < m < 0x1_0000_0000 && length < 0x1_0000_0000 && first < 0x1_0000_0000
    requires first == Quot(offset, m) && so == Rem(offset, m)
    requires last == Quot(offset + length, m) && eo == Rem(offset + length, m)
    ensures Tiles(Chunkify(offset, length, m), offset, length, m)
  {
    var c := Chunkify(offset, length, m);
    MulDistrib(last, first, m);
    assert (last - first) * m == length + so - eo;
    if last < first {
      MulMono(1, first - last, m);
      MulDistrib(first, last, m);
      assert false;
    } else if last == first {
      assert so + length < m;
      QuotRemUnique(length, m, 0, length);
      QuotRemUnique(0, m, 0, 0);
      assert c == FsChunks(first, so, length, 0, 0);
    } else {
      MulMono(1, last - first, m);
      LastDiffers(first, last, m, length, so, eo);
      assert eo <= length;
      assert c.endSize == eo;
      if so == 0 {
        QuotRemUnique(length - eo, m, last - first, 0);
        assert c.startSize == 0;
        assert c.numFullChunks == last - first;
      } else {
        MulDistrib(last - first - 1, 1, m);
        QuotRemUnique(length - eo, m, last - first - 1, m - so);
        assert c.startSize == m - so;
        MulDistrib(last - first, 1, m);
        QuotRemUnique(length - eo - c.startSize, m, last - first - 1, 0);
        MulDistrib(first, 1, m);
      }
    }
  }

  /** Truncation cannot make two different chunk numbers of one range look equal. */
  lemma LastDiffers(first: nat, last: nat, m: nat, length: nat, so: nat, eo: nat)
    requires 0 < m && length < 0x1_0000_0000 && first < 0x1_0000_0000 && first < last && so < m
    requires (last - first) * m == length + so - eo
    ensures last - first < 0x1_0000_0000 && Trunc32(last) != first
  {
    MulLess(last - first, 0x1_0000_0000, m);
  }
}
