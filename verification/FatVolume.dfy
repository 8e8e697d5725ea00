/** A mounted volume: its table and its clusters are bytes of one disk, changed in place. */
module FatVolume {
  import opened Bytes
  import opened Chunks
  import opened FatTable
  import opened Clusters
  import opened FatClaims
  import opened FileBytes

  /** The table as an array of `n` entries. */
  function TableOf(ty: FatType, disk: seq<Byte>, base: nat, n: nat): (t: seq<nat>)
    requires n > 0 ==> OnDisk(ty, disk, base, n - 1)
    ensures |t| == n
  {
    seq(n, c requires 0 <= c < n => EntryWithin(ty, disk, base, n, c))
  }

  function EntryWithin(ty: FatType, disk: seq<Byte>, base: nat, n: nat, c: nat): nat
    requires c < n && OnDisk(ty, disk, base, n - 1)
  {
    assert EntryOffset(ty, c) <= EntryOffset(ty, n - 1);
    GetEntry(ty, disk, base, c)
  }

  lemma TableSet(ty: FatType, disk: seq<Byte>, base: nat, n: nat, c: nat, next: nat)
    requires c < n && OnDisk(ty, disk, base, n - 1)
    ensures OnDisk(ty, disk, base, c)
    ensures TableOf(ty, SetEntry(ty, disk, base, c, next), base, n) == TableOf(ty, disk, base, n)[c := next % Modulus(ty)]
  {
    var s := SetEntry(ty, disk, base, c, next);
    forall d | 0 <= d < n
      ensures TableOf(ty, s, base, n)[d] == TableOf(ty, disk, base, n)[c := next % Modulus(ty)][d]
    {
      SetThenGet(ty, disk, base, c, next, d);
    }
  }

  /** The table depends on its own bytes only. */
  lemma TableKept(ty: FatType, disk: seq<Byte>, s: seq<Byte>, base: nat, n: nat, end: nat)
    requires n > 0 && OnDisk(ty, disk, base, n - 1) && |s| == |disk|
    requires base + EntryOffset(ty, n - 1) + Width(ty) <= end <= |disk| && forall p :: base <= p < end ==> s[p] == disk[p]
    ensures TableOf(ty, s, base, n) == TableOf(ty, disk, base, n)
  {
  }

  class FatDrive {
    const ty: FatType
    const fatBase: nat          // byte address of fat_block
    const dataBase: nat         // byte address of cluster 2
    const clusterSize: nat
    const numClusters: nat      // how many data clusters there are: they are 2 to numClusters + 1
    ghost const entries: nat    // entries on the disk, the bytes after the table read as entries too
    ghost const limit: nat      // the first entry at or after numClusters that does not read as free
    var disk: seq<Byte>
    var freeClusters: seq<nat>  // each a run of one cluster, as fat_mark_cluster_free makes them

    ghost predicate Fixed()
      reads this`disk
    {
      && 0 < entries && OnDisk(ty, disk, fatBase, entries - 1)
      && 2 <= limit < entries && numClusters <= limit <= Eof(ty)
      && 0 < clusterSize < 0x1_0000_0000
    }

    ghost function Table(): (t: seq<nat>)
      reads this`disk
      requires Fixed()
      ensures |t| == entries
    {
      TableOf(ty, disk, fatBase, entries)
    }

    /** The first two entries are reserved, and the search for free clusters stops at `limit`. */
    ghost predicate Valid()
      reads this`disk
    {
      Fixed() && Table()[0] != 0 && Table()[1] != 0 && Table()[limit] != 0
    }

    method GetNextCluster(c: nat) returns (next: nat)
      requires Fixed() && c < entries
      ensures next == Table()[c]
    {
      assert EntryOffset(ty, c) <= EntryOffset(ty, entries - 1);
      next := GetEntry(ty, disk, fatBase, c);
    }

    method SetNextCluster(c: nat, next: nat)
      requires Fixed() && c < entries
      modifies this`disk
      ensures Fixed() && |disk| == |old(disk)| && Table() == old(Table())[c := next % Modulus(ty)]
    {
      TableSet(ty, disk, fatBase, entries, c, next);
      disk := SetEntry(ty, disk, fatBase, c, next);
    }

    /** `write_to_fat`: links a run of clusters after `previous`, if there is one. */
    method WriteToFat(previous: nat, first: nat, num: nat) returns (last: nat)
      requires Fixed() && num > 0 && first + num <= Modulus(ty)
      requires previous < entries && (num > 1 ==> first + num <= entries)
      modifies this`disk
      ensures Fixed() && |disk| == |old(disk)| && last == first + num - 1
      ensures Table() == WithSpan(old(Table()), previous, first, num)
    {
      hide Fixed, WithSpan, Modulus, TableOf;
      ghost var t := Table();
      SpanOfOne(t, previous, first);
      FitsEntry(ty, first);
      if previous != 0 {
        SetNextCluster(previous, first);
      }
      for i := 0 to num - 1
        invariant Fixed() && |disk| == |old(disk)| && Table() == WithSpan(t, previous, first, i + 1)
      {
        SpanOfNext(t, previous, first, i + 1);
        FitsEntry(ty, first + i + 1);
        SetNextCluster(first + i, first + i + 1);
      }
      last := first + num - 1;
    }

    /** `fat_claim_clusters`: clusters freed before are taken first, the latest first, then the table is searched. */
    method ClaimClusters(last: nat, num: nat) returns (r: nat)
      requires Valid() && num > 0 && last < limit && forall i :: 0 <= i < |freeClusters| ==> 2 <= freeClusters[i] < limit
      modifies this`disk, this`freeClusters
      ensures Valid() && |disk| == |old(disk)|
      ensures (Outcome(Table(), r), freeClusters) == Claim(old(Table()), numClusters, Eof(ty), old(freeClusters), last, num)
    {
      hide Fixed, WithSpan, Search, Modulus, TableOf;
      FixedMeans();
      ghost var was, list := Table(), freeClusters;
      var left: nat, end: nat := num, last;
      while freeClusters != []
        invariant Valid() && |disk| == |old(disk)| && left > 0 && end < limit && forall i :: 0 <= i < |freeClusters| ==> 2 <= freeClusters[i] < limit
        invariant Claim(Table(), numClusters, Eof(ty), freeClusters, end, left) == Claim(was, numClusters, Eof(ty), list, last, num)
        decreases |freeClusters|
      {
        var c := freeClusters[|freeClusters| - 1];
        freeClusters := freeClusters[..|freeClusters| - 1];
        LinkKeeps(Table(), end, c, 1);
        end := WriteToFat(end, c, 1);
        left := left - 1;
        if left == 0 {
          MarkEnd(end);
          return end;
        }
      }
      r := SearchFree(end, left);
    }

    /** The search of the table. */
    method SearchFree(last: nat, num: nat) returns (r: nat)
      requires Valid() && num > 0 && last < limit
      modifies this`disk
      ensures Valid() && |disk| == |old(disk)|
      ensures Outcome(Table(), r) == Search(old(Table()), numClusters, Eof(ty), 0, last, num)
    {
      hide Fixed, WithSpan, RunFrom, Modulus, TableOf;
      FixedMeans();
      r := 0;
      var left: nat, cluster: nat, end: nat := num, 0, last;
      ghost var was := Table();
      while cluster < numClusters
        invariant Valid() && |disk| == |old(disk)| && left > 0 && end < limit
        invariant Search(Table(), numClusters, Eof(ty), cluster, end, left) == Search(was, numClusters, Eof(ty), 0, last, num)
        decreases limit + 1 - cluster
      {
        var next := GetNextCluster(cluster);
        if next != 0 {
          cluster := cluster + 1;
        } else {
          var first := cluster;
          var n;
          n, cluster := MeasureRun(first, left);
          LinkKeeps(Table(), end, first, n);
          end := WriteToFat(end, first, n);
          left := left - n;
          if left == 0 {
            MarkEnd(end);
            r := end;
            return;
          }
          cluster := cluster + 1;
        }
      }
      MarkEnd(end);
    }

    /** The free clusters in a row from `first`, at most `most` of them, and where the search stands after them. */
    method MeasureRun(first: nat, most: nat) returns (num: nat, cluster: nat)
      requires Valid() && first < limit && most > 0 && Table()[first] == 0
      ensures num == RunFrom(Table(), first, most) && 2 <= first && 0 < num <= most && first + num <= limit
      ensures cluster == if num < most then first + num else first + num - 1
    {
      hide TableOf, Eof, Fixed;
      FixedMeans();
      num, cluster := 1, first;
      while num < most
        invariant 0 < num <= most && first + num <= limit && cluster == first + num - 1
        invariant num + RunFrom(Table(), first + num, most - num) == RunFrom(Table(), first, most)
      {
        cluster := cluster + 1;
        var next := GetNextCluster(cluster);
        if next != 0 {
          return;
        }
        num := num + 1;
      }
    }

    /** Writes the end-of-file mark where the chain now ends. */
    method MarkEnd(end: nat)
      requires Valid() && end < limit
      modifies this`disk
      ensures Valid() && |disk| == |old(disk)| && Table() == WithSpan(old(Table()), end, Eof(ty), 1)
    {
      hide Fixed, TableOf, WithSpan;
      FixedMeans();
      LinkKeeps(Table(), end, Eof(ty), 1);
      var ignored := WriteToFat(end, Eof(ty), 1);
    }

    /** A link leaves an entry that is not free not free. */
    lemma LinkKeeps(t: seq<nat>, prev: nat, first: nat, num: nat)
      requires first > 0
      ensures var u := WithSpan(t, prev, first, num);
        |u| == |t| && forall c :: 0 <= c < |t| && t[c] != 0 ==> u[c] != 0
    {
    }

    lemma FixedMeans()
      requires Fixed()
      ensures 2 <= limit < entries && numClusters <= limit <= Eof(ty) < Modulus(ty)
    {
    }

    // ---- file access ----

    /** A chain whose clusters lie on the disk, the table apart from them. */
    ghost predicate File(s: seq<nat>)
      reads this`disk
    {
      && Valid() && IsChain(Table(), limit, Eof(ty), s) && Stored(DataArea(), disk, s)
      && fatBase + EntryOffset(ty, entries - 1) + Width(ty) <= dataBase
    }

    function DataArea(): Area
      reads this`disk
    {
      Area(dataBase, 2, clusterSize)
    }

    lemma FileStored(s: seq<nat>)
      requires File(s)
      ensures s != [] && Stored(DataArea(), disk, s) && |s| <= limit < 0x1_0000_0000 && 0 < clusterSize < 0x1_0000_0000
    {
      ShortPath(s, limit);
    }

    /** The cluster `n` links down the chain, or an end-of-file mark if the chain is shorter. */
    method GetRelativeCluster(start: nat, n: nat, ghost s: seq<nat>, ghost k: nat) returns (cluster: nat)
      requires File(s) && k < |s| && start == s[k]
      ensures if k + n < |s| then cluster == s[k + n] else cluster >= Eof(ty)
    {
      cluster := start;
      for i := 0 to n
        invariant k + i < |s| && cluster == s[k + i]
      {
        assert k + i + 1 < |s| ==> Table()[s[k + i]] == s[k + i + 1];
        cluster := GetNextCluster(cluster);
        if cluster >= Eof(ty) {
          return;
        }
      }
    }

    ghost function FileData(s: seq<nat>): (r: seq<Byte>)
      requires File(s)
      reads this`disk
      ensures |r| == Scale(|s|, clusterSize)
    {
      FileStored(s);
      Content(DataArea(), disk, s)
    }

    /** Where the bytes of a file are: cluster 2 is the first of the data area. */
    lemma FileByte(s: seq<nat>, k: nat, o: nat, at: int)
      requires File(s) && k < |s| && o < clusterSize && at == dataBase + (s[k] - 2) * clusterSize + o
      ensures k * clusterSize + o < Scale(|s|, clusterSize) && 0 <= at < |disk|
      ensures FileData(s)[k * clusterSize + o] == disk[at]
    {
      hide Scale, Content, TableOf, IsChain, Stored;
      FileStored(s);
      InDisk(DataArea(), disk, s, k);
      PieceRoom(k, |s|, clusterSize);
      ScaleIsProduct(k, clusterSize);
      ScaleIsProduct(s[k] - 2, clusterSize);
      ContentAt(DataArea(), disk, s, k, o);
    }

    /** One piece, inside one cluster. */
    method WritePiece(cluster: nat, o: nat, piece: seq<Byte>, ghost s: seq<nat>, ghost k: nat)
      requires File(s) && k < |s| && cluster == s[k] && o + |piece| <= clusterSize
      modifies this`disk
      ensures File(s) && Table() == old(Table()) && OnlyIn(DataArea(), old(disk), disk, s)
      ensures Scale(k, clusterSize) + clusterSize <= Scale(|s|, clusterSize)
      ensures FileData(s) == Splice(old(FileData(s)), Scale(k, clusterSize) + o, piece)
    {
      hide Scale, Splice, Content, IsChain, OnlyIn, Stored, TableOf;
      FileStored(s);
      InDisk(DataArea(), disk, s, k);
      var at := DataArea().At(cluster) + o;
      PieceWritten(DataArea(), disk, s, k, o, piece);
      OnlyInPiece(DataArea(), disk, s, k, o, piece);
      DataKeepsTable(at, piece);
      disk := Splice(disk, at, piece);
    }

    lemma DataKeepsTable(at: nat, piece: seq<Byte>)
      requires Fixed() && dataBase <= at && at + |piece| <= |disk|
      requires fatBase + EntryOffset(ty, entries - 1) + Width(ty) <= dataBase
      ensures TableOf(ty, Splice(disk, at, piece), fatBase, entries) == Table()
    {
      hide Splice;
      var d := Splice(disk, at, piece);
      forall p: nat | p < dataBase ensures d[p] == disk[p] {
        SpliceAt(disk, at, piece, p);
      }
      TableKept(ty, disk, d, fatBase, entries, dataBase);
    }

    /** Where a walk stands: on cluster `k` of the chain, or past its end. */
    ghost predicate AtCluster(s: seq<nat>, k: nat, cluster: nat)
      reads this`disk
    {
      if k < |s| then cluster == s[k] else cluster >= Eof(ty)
    }

    lemma InChain(s: seq<nat>, k: nat)
      requires File(s) && k < |s|
      ensures s[k] < Eof(ty)
    {
    }

    /** The piece to be done next is at byte `at` of the file: the start of cluster `k`, or past the end. */
    ghost predicate Stands(s: seq<nat>, k: nat, at: nat) {
      if k < |s| then at == Scale(k, clusterSize) else at >= Scale(|s|, clusterSize)
    }

    lemma StandsNext(s: seq<nat>, k: nat, at: nat)
      requires k < |s| && Stands(s, k, at)
      ensures Stands(s, k + 1, at + clusterSize)
    {
    }

    /** Where the walk stands after the whole clusters, one for a head and `c.numFullChunks` more. */
    ghost function Ends(c: FsChunks): nat {
      c.startChunk + HeadChunks(c) + c.numFullChunks
    }

    lemma Pieces(s: seq<nat>, offset: nat, length: nat, c: FsChunks)
      requires 0 < clusterSize < 0x1_0000_0000 && length < 0x1_0000_0000 && Quot(offset, clusterSize) < 0x1_0000_0000
      requires c == Chunkify(offset, length, clusterSize)
      ensures c.startSize + Scale(c.numFullChunks, clusterSize) + c.endSize == length && c.endSize < clusterSize
      ensures c.startOffset + c.startSize <= clusterSize
      ensures c.startChunk < |s| ==> offset == Scale(c.startChunk, clusterSize) + c.startOffset < Scale(|s|, clusterSize)
      ensures c.startChunk >= |s| ==> offset >= Scale(|s|, clusterSize)
      ensures c.numFullChunks > 0 || c.endSize > 0 ==> Stands(s, c.startChunk + HeadChunks(c), offset + c.startSize)
    {
      hide Scale, Chunkify, Quot;
      PiecesPlaced(offset, length, clusterSize);
      StartsIn(offset, clusterSize, c, length, |s|);
    }

    /** A head is written at the cluster the walk to it ends at, an end-of-file mark if the chain is too short: its bytes
        lie in the file exactly when the file goes so far. */
    lemma HeadInFileIff(s: seq<nat>, offset: nat, length: nat, c: FsChunks, cluster: nat, p: nat)
      requires File(s) && length < 0x1_0000_0000 && Quot(offset, clusterSize) < 0x1_0000_0000
      requires c == Chunkify(offset, length, clusterSize) && AtCluster(s, c.startChunk, cluster) && cluster >= 2
      requires DataArea().At(cluster) + c.startOffset <= p < DataArea().At(cluster) + c.startOffset + c.startSize
      ensures InSome(DataArea(), s, p) <==> offset < Scale(|s|, clusterSize)
    {
      hide Chunkify, Quot, Scale, TableOf;
      FileStored(s);
      Pieces(s, offset, length, c);
      if c.startChunk >= |s| {
        forall k | 0 <= k < |s| ensures DataArea().At(s[k]) + clusterSize <= DataArea().At(cluster) {
          InChain(s, k);
          ScaleMono(s[k] - 2, cluster - 2, clusterSize);
        }
      }
    }

    /** `fat_write`: the head, the whole clusters, the tail, as far as the chain goes. A head past its end is not written to
        the file, so there must be none. */
    method Write(buf: seq<Byte>, start: nat, offset: nat, ghost s: seq<nat>) returns (cluster: nat)
      requires File(s) && start == s[0] && |buf| < 0x1_0000_0000 && Quot(offset, clusterSize) < 0x1_0000_0000
      requires Chunkify(offset, |buf|, clusterSize).startSize > 0 ==> offset < Scale(|s|, clusterSize)
      modifies this`disk
      ensures File(s) && Table() == old(Table()) && OnlyIn(DataArea(), old(disk), disk, s)
      ensures FileData(s) == Clipped(old(FileData(s)), offset, buf)
      ensures AtCluster(s, Ends(Chunkify(offset, |buf|, clusterSize)), cluster)
    {
      hide Scale, Splice, Content, Chunkify, OnlyIn, IsChain, Clipped, Stands, Quot, TableOf;
      var c := Chunkify(offset, |buf|, clusterSize);
      FileStored(s);
      Pieces(s, offset, |buf|, c);
      cluster := GetRelativeCluster(start, c.startChunk, s, 0);
      ghost var was := FileData(s);
      if c.startSize != 0 {
        WritePiece(cluster, c.startOffset, buf[..c.startSize], s, c.startChunk);
        cluster := GetRelativeCluster(cluster, 1, s, c.startChunk);
        ClippedPiece(was, FileData(s), offset, buf, c.startSize);
      } else {
        NothingChanged(DataArea(), disk, s);
      }
      assert Clipped(FileData(s), offset + c.startSize, buf[c.startSize..]) == Clipped(was, offset, buf);
      ghost var mid := disk;
      cluster := WriteRest(buf[c.startSize..], cluster, c.numFullChunks, c.endSize, s, c.startChunk + HeadChunks(c), offset + c.startSize);
      OnlyInTwice(DataArea(), old(disk), mid, disk, s);
    }

    /** The pieces after the head, from cluster `k0` on, which is byte `at` of the file. */
    method WriteRest(buf: seq<Byte>, cluster0: nat, numFull: nat, endSize: nat, ghost s: seq<nat>, ghost k0: nat, ghost at: nat)
        returns (cluster: nat)
      requires File(s) && AtCluster(s, k0, cluster0) && Scale(numFull, clusterSize) + endSize == |buf| && endSize < clusterSize
      requires numFull > 0 || endSize > 0 ==> Stands(s, k0, at)
      modifies this`disk
      ensures File(s) && Table() == old(Table()) && OnlyIn(DataArea(), old(disk), disk, s)
      ensures FileData(s) == Clipped(old(FileData(s)), at, buf) && AtCluster(s, k0 + numFull, cluster)
    {
      hide Scale, Splice, Content, OnlyIn, IsChain, Fixed, TableOf, Eof, Clipped, Stands;
      var left: nat, i: nat := numFull, 0;
      cluster := cluster0;
      ghost var k: nat := k0;
      ghost var d0, target := disk, Clipped(FileData(s), at, buf);
      NothingChanged(DataArea(), disk, s);
      while left > 0 && cluster < Eof(ty)
        invariant File(s) && Table() == old(Table()) && OnlyIn(DataArea(), d0, disk, s)
        invariant AtCluster(s, k, cluster) && i + Scale(left, clusterSize) + endSize == |buf| && k + left == k0 + numFull
        invariant left > 0 || endSize > 0 ==> Stands(s, k, at + i)
        invariant Clipped(FileData(s), at + i, buf[i..]) == target
      {
        NextScale(left - 1, clusterSize);
        i := WriteNext(buf, cluster, i, clusterSize, s, k, at, d0);
        cluster := GetRelativeCluster(cluster, 1, s, k);
        left, k := left - 1, k + 1;
      }
      NoScale(clusterSize);
      if k < |s| {
        InChain(s, k);
      } else {
        PastEnd(s, k, at + i, buf[i..]);
      }
      if endSize != 0 && cluster < Eof(ty) {
        i := WriteNext(buf, cluster, i, endSize, s, k, at, d0);
      }
      NothingLeft(FileData(s), at + i, buf[i..]);
    }

    /** The next `n` bytes of the buffer, to the start of a cluster. */
    method WriteNext(buf: seq<Byte>, cluster: nat, i: nat, n: nat, ghost s: seq<nat>, ghost k: nat, ghost at: nat, ghost d0: seq<Byte>)
        returns (j: nat)
      requires File(s) && AtCluster(s, k, cluster) && cluster < Eof(ty) && 0 < n <= clusterSize && i + n <= |buf|
      requires Stands(s, k, at + i) && OnlyIn(DataArea(), d0, disk, s)
      modifies this`disk
      ensures File(s) && Table() == old(Table()) && OnlyIn(DataArea(), d0, disk, s)
      ensures k < |s| && j == i + n && (n == clusterSize ==> Stands(s, k + 1, at + j))
      ensures Clipped(FileData(s), at + j, buf[j..]) == Clipped(old(FileData(s)), at + i, buf[i..])
    {
      hide Scale, Splice, Content, OnlyIn, Clipped, IsChain, TableOf;
      WritePiece(cluster, 0, buf[i..i + n], s, k);
      OnlyInTwice(DataArea(), d0, old(disk), disk, s);
      j := i + n;
      assert buf[i..][..n] == buf[i..i + n] && buf[i..][n..] == buf[j..];
      ClippedPiece(old(FileData(s)), FileData(s), at + i, buf[i..], n);
      StandsNext(s, k, at + i);
    }

    /** Past the end of the chain nothing is left to do. */
    lemma PastEnd(s: seq<nat>, k: nat, at: nat, rest: seq<Byte>)
      requires File(s) && k >= |s| && (rest != [] ==> Stands(s, k, at))
      ensures Clipped(FileData(s), at, rest) == FileData(s)
    {
      hide Splice, Content;
      NothingLeft(FileData(s), at, rest);
    }

    method ReadPiece(cluster: nat, o: nat, n: nat, ghost s: seq<nat>, ghost k: nat) returns (piece: seq<Byte>)
      requires File(s) && k < |s| && cluster == s[k] && o + n <= clusterSize
      ensures Scale(k, clusterSize) + clusterSize <= Scale(|s|, clusterSize)
      ensures piece == FileData(s)[Scale(k, clusterSize) + o..Scale(k, clusterSize) + o + n]
    {
      hide Scale, Content, IsChain, Stored, TableOf;
      FileStored(s);
      InDisk(DataArea(), disk, s, k);
      PieceRead(DataArea(), disk, s, k, o, n);
      var at := DataArea().At(cluster) + o;
      piece := disk[at..at + n];
    }

    /** `fat_read`: the same walk, filling the buffer as far as the chain goes. */
    method Read(start: nat, offset: nat, size: nat, ghost s: seq<nat>) returns (buf: seq<Byte>, cluster: nat)
      requires File(s) && start == s[0] && size < 0x1_0000_0000 && Quot(offset, clusterSize) < 0x1_0000_0000
      ensures buf == Window(FileData(s), offset, size)
      ensures AtCluster(s, Ends(Chunkify(offset, size, clusterSize)), cluster)
    {
      hide Scale, Content, Chunkify, IsChain, Stands, Quot, TableOf, Window, Stored, Fixed, Eof;
      var c := Chunkify(offset, size, clusterSize);
      FileStored(s);
      Pieces(s, offset, size, c);
      cluster := GetRelativeCluster(start, c.startChunk, s, 0);
      buf := [];
      if cluster >= Eof(ty) {
        ReadNothing(s, c.startChunk, cluster, offset, size);
        return;
      }
      InTheChain(s, c.startChunk, cluster);
      if c.startSize != 0 {
        buf := ReadPiece(cluster, c.startOffset, c.startSize, s, c.startChunk);
        cluster := GetRelativeCluster(cluster, 1, s, c.startChunk);
      }
      var rest;
      rest, cluster := ReadRest(cluster, c.numFullChunks, c.endSize, s, c.startChunk + HeadChunks(c), offset + c.startSize);
      HeadInside(s, c.startChunk, offset, c.startOffset, c.startSize);
      WindowNext(FileData(s), offset, c.startSize, size - c.startSize);
      buf := buf + rest;
    }

    lemma HeadInside(s: seq<nat>, k: nat, offset: nat, o: nat, n: nat)
      requires k < |s| && offset == Scale(k, clusterSize) + o && o + n <= clusterSize
      ensures offset + n <= Scale(|s|, clusterSize)
    {
      PieceRoom(k, |s|, clusterSize);
    }

    lemma ReadNothing(s: seq<nat>, k: nat, cluster: nat, at: nat, size: nat)
      requires File(s) && AtCluster(s, k, cluster) && cluster >= Eof(ty) && (k >= |s| ==> at >= Scale(|s|, clusterSize))
      ensures k >= |s| && Window(FileData(s), at, size) == []
    {
      hide Scale, Content;
      if k < |s| {
        InChain(s, k);
      }
    }

    lemma InTheChain(s: seq<nat>, k: nat, cluster: nat)
      requires File(s) && AtCluster(s, k, cluster) && cluster < Eof(ty)
      ensures k < |s|
    {
    }

    /** The pieces after the head, from cluster `k0` on, which is byte `at` of the file. */
    method ReadRest(cluster0: nat, numFull: nat, endSize: nat, ghost s: seq<nat>, ghost k0: nat, ghost at: nat)
        returns (buf: seq<Byte>, cluster: nat)
      requires File(s) && AtCluster(s, k0, cluster0) && endSize < clusterSize
      requires numFull > 0 || endSize > 0 ==> Stands(s, k0, at)
      ensures buf == Window(FileData(s), at, Scale(numFull, clusterSize) + endSize) && AtCluster(s, k0 + numFull, cluster)
    {
      hide Scale, Content, IsChain, Fixed, TableOf, Eof, Stands, Window;
      var left: nat := numFull;
      cluster := cluster0;
      ghost var k: nat := k0;
      ghost var total := Scale(numFull, clusterSize) + endSize;
      buf := [];
      while left > 0 && cluster < Eof(ty)
        invariant AtCluster(s, k, cluster) && |buf| + Scale(left, clusterSize) + endSize == total && k + left == k0 + numFull
        invariant left > 0 || endSize > 0 ==> Stands(s, k, at + |buf|)
        invariant buf + Window(FileData(s), at + |buf|, total - |buf|) == Window(FileData(s), at, total)
      {
        NextScale(left - 1, clusterSize);
        buf := ReadNext(buf, cluster, clusterSize, s, k, at, total);
        cluster := GetRelativeCluster(cluster, 1, s, k);
        left, k := left - 1, k + 1;
      }
      NoScale(clusterSize);
      if k < |s| {
        InChain(s, k);
      } else {
        NoneToRead(s, k, at + |buf|, total - |buf|);
      }
      if endSize != 0 && cluster < Eof(ty) {
        buf := ReadNext(buf, cluster, endSize, s, k, at, total);
      }
      WindowNothing(FileData(s), at + |buf|);
    }

    /** The next `n` bytes of the file, from the start of a cluster. */
    method ReadNext(done: seq<Byte>, cluster: nat, n: nat, ghost s: seq<nat>, ghost k: nat, ghost at: nat, ghost total: nat)
        returns (buf: seq<Byte>)
      requires File(s) && AtCluster(s, k, cluster) && cluster < Eof(ty) && 0 < n <= clusterSize && |done| + n <= total
      requires Stands(s, k, at + |done|)
      ensures k < |s| && |buf| == |done| + n && (n == clusterSize ==> Stands(s, k + 1, at + |buf|))
      ensures buf + Window(FileData(s), at + |buf|, total - |buf|) == done + Window(FileData(s), at + |done|, total - |done|)
    {
      hide Scale, Content, IsChain, Window, TableOf, Stored, Fixed;
      var piece := ReadPiece(cluster, 0, n, s, k);
      WindowNext(FileData(s), at + |done|, n, total - |done| - n);
      StandsNext(s, k, at + |done|);
      buf := done + piece;
      assert done + (piece + Window(FileData(s), at + |buf|, total - |buf|)) == buf + Window(FileData(s), at + |buf|, total - |buf|);
    }

    lemma NoneToRead(s: seq<nat>, k: nat, at: nat, n: nat)
      requires File(s) && k >= |s| && (n > 0 ==> Stands(s, k, at))
      ensures Window(FileData(s), at, n) == []
    {
      hide Content;
    }
  }
}
