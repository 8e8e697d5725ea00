/** The file allocation table (drivers/formats/fat.cpp): as bytes on the disk, and as an array of entries. */
module FatTable {
  import opened Bytes

  datatype FatType = Fat12 | Fat16 | Fat32 | ExFat

  /** One more than `fat_entry_mask`. */
  function Modulus(ty: FatType): nat {
    match ty
    case Fat12 => 0x1000
    case Fat16 => 0x1_0000
    case Fat32 => 0x1000_0000
    case ExFat => 0x1_0000_0000
  }

  function Eof(ty: FatType): nat {
    Modulus(ty) - 8
  }

  /** A value that fits an entry is stored as it is. */
  lemma FitsEntry(ty: FatType, v: nat)
    requires v < Modulus(ty)
    ensures v % Modulus(ty) == v
  {
  }

  /** Where entry `c` is in the table, and how many bytes are read and written for it. */
  function EntryOffset(ty: FatType, c: nat): nat {
    match ty
    case Fat12 => c + c / 2
    case Fat16 => 2 * c
    case _ => 4 * c
  }

  function Width(ty: FatType): nat {
    match ty
    case Fat12 => 2
    case Fat16 => 2
    case _ => 4
  }

  /** Entry `c` of a table that begins at byte `base` is on the disk. */
  predicate OnDisk(ty: FatType, disk: seq<Byte>, base: nat, c: nat) {
    base + EntryOffset(ty, c) + Width(ty) <= |disk|
  }

  /** `fat_get_next_cluster`. */
  function GetEntry(ty: FatType, disk: seq<Byte>, base: nat, c: nat): nat
    requires OnDisk(ty, disk, base, c)
  {
    var at := base + EntryOffset(ty, c);
    match ty
    case Fat12 => if c % 2 == 1 then Word16(disk, at) / 16 else Word16(disk, at) % 0x1000
    case Fat16 => Word16(disk, at)
    case Fat32 => Word32(disk, at) % 0x1000_0000
    case ExFat => Word32(disk, at)
  }

  /** The word that is written back for entry `c`: two entries of a 12-bit table share a byte. */
  function NewWord12(was: nat, c: nat, next: nat): nat {
    if c % 2 == 1 then was % 16 + next * 16 % 0x1_0000 else was / 0x1000 * 0x1000 + next % 0x1000
  }

  /** `fat_set_next_cluster`. */
  function SetEntry(ty: FatType, disk: seq<Byte>, base: nat, c: nat, next: nat): (r: seq<Byte>)
    requires OnDisk(ty, disk, base, c)
    ensures |r| == |disk|
  {
    var at := base + EntryOffset(ty, c);
    match ty
    case Fat12 => Splice(disk, at, Bytes16(NewWord12(Word16(disk, at), c, next)))
    case Fat16 => Splice(disk, at, Bytes16(next % 0x1_0000))
    case Fat32 => Splice(disk, at, Bytes32(next % 0x1000_0000))
    case ExFat => Splice(disk, at, Bytes32(next % 0x1_0000_0000))
  }

  /** Half a byte of the table, the low half of a byte first. */
  function Nibble(disk: seq<Byte>, base: nat, i: nat): nat
    requires base + i / 2 < |disk|
  {
    if i % 2 == 0 then disk[base + i / 2] % 16 else disk[base + i / 2] / 16
  }

  /** `n` of them from number `first` on, as digits, the lowest first. */
  function Nibbles(disk: seq<Byte>, base: nat, first: nat, n: nat): nat
    requires n > 0 ==> base + (first + n - 1) / 2 < |disk|
    decreases n
  {
    if n == 0 then 0 else Nibble(disk, base, first) + 16 * Nibbles(disk, base, first + 1, n - 1)
  }

  /** Where an entry lies: entries are packed, of 3, 4, 8 and 8 half-bytes, and the 32-bit one leaves its last half-byte
      unused. */
  lemma EntryIsNibbles(ty: FatType, disk: seq<Byte>, base: nat, c: nat)
    requires OnDisk(ty, disk, base, c)
    ensures var slot := if ty == Fat12 then 3 else if ty == Fat16 then 4 else 8;
      var used := if ty == Fat32 then 7 else slot;
      base + (slot * c + used - 1) / 2 < |disk| && GetEntry(ty, disk, base, c) == Nibbles(disk, base, slot * c, used)
  {
    match ty {
      case Fat12 => PackedNibbles(disk, base, c);
      case Fat16 => WordNibbles(disk, base, 4 * c, 4);
      case Fat32 => WordNibbles(disk, base, 8 * c, 7);
      case ExFat => WordNibbles(disk, base, 8 * c, 8);
    }
  }

  lemma PackedNibbles(disk: seq<Byte>, base: nat, c: nat)
    requires OnDisk(Fat12, disk, base, c)
    ensures base + (3 * c + 2) / 2 < |disk| && GetEntry(Fat12, disk, base, c) == Nibbles(disk, base, 3 * c, 3)
  {
    hide Nibbles, GetEntry;
    var at := base + EntryOffset(Fat12, c);
    assert 3 * c / 2 == EntryOffset(Fat12, c) && 3 * c % 2 == c % 2;
    ThreeNibbles(disk, base, 3 * c);
    Entry12(disk, base, c);
  }

  lemma Entry12(disk: seq<Byte>, base: nat, c: nat)
    requires OnDisk(Fat12, disk, base, c)
    ensures var at := base + EntryOffset(Fat12, c);
      GetEntry(Fat12, disk, base, c) ==
        if c % 2 == 1 then disk[at] / 16 + 16 * (disk[at + 1] as int) else disk[at] as int + 256 * ((disk[at + 1] as int) % 16)
  {
    var at := base + EntryOffset(Fat12, c);
    LowTwelve(disk[at], disk[at + 1]);
    HighTwelve(disk[at], disk[at + 1]);
  }

  lemma ThreeNibbles(disk: seq<Byte>, base: nat, first: nat)
    requires base + first / 2 + 2 <= |disk|
    ensures base + (first + 2) / 2 < |disk|
    ensures var at := base + first / 2;
      Nibbles(disk, base, first, 3) ==
        if first % 2 == 1 then disk[at] / 16 + 16 * (disk[at + 1] as int) else disk[at] as int + 256 * ((disk[at + 1] as int) % 16)
  {
    hide Nibbles;
    if first % 2 == 0 {
      ByteNibbles(disk, base, first, 3);
      NibblesOfOne(disk, base, first + 2);
    } else {
      NextNibble(disk, base, first, 3);
      ByteNibbles(disk, base, first + 1, 2);
      NoNibbles(disk, base, first + 3);
    }
  }

  lemma LowTwelve(a: nat, b: nat)
    requires a < 256 && b < 256
    ensures (a + 256 * b) % 0x1000 == a + 256 * (b % 16)
  {
  }

  lemma HighTwelve(a: nat, b: nat)
    requires a < 256 && b < 256
    ensures (a + 256 * b) / 16 == a / 16 + 16 * b
  {
  }

  lemma WordNibbles(disk: seq<Byte>, base: nat, first: nat, n: nat)
    requires first % 2 == 0 && 4 <= n <= 8 && (n == 4 || n >= 7) && base + first / 2 + (if n == 4 then 2 else 4) <= |disk|
    ensures base + (first + n - 1) / 2 < |disk|
    ensures Nibbles(disk, base, first, n) ==
      var at := base + first / 2;
      if n == 4 then Word16(disk, at) else if n == 7 then Word32(disk, at) % 0x1000_0000 else Word32(disk, at)
  {
    hide Nibbles;
    var at := base + first / 2;
    ByteNibbles(disk, base, first, n);
    ByteNibbles(disk, base, first + 2, n - 2);
    if n == 4 {
      NoNibbles(disk, base, first + 4);
    } else {
      ByteNibbles(disk, base, first + 4, n - 4);
      if n == 7 {
        NibblesOfOne(disk, base, first + 6);
        LowTwentyEight(disk[at], disk[at + 1], disk[at + 2], disk[at + 3]);
      } else {
        ByteNibbles(disk, base, first + 6, 2);
        NoNibbles(disk, base, first + 8);
      }
    }
  }

  lemma LowTwentyEight(a: nat, b: nat, c: nat, d: nat)
    requires a < 256 && b < 256 && c < 256 && d < 256
    ensures (a + 256 * b + 0x1_0000 * c + 0x100_0000 * d) % 0x1000_0000 == a + 256 * b + 0x1_0000 * c + 0x100_0000 * (d % 16)
  {
  }

  lemma NextNibble(disk: seq<Byte>, base: nat, first: nat, n: nat)
    requires n > 0 && base + (first + n - 1) / 2 < |disk|
    ensures Nibbles(disk, base, first, n) == Nibble(disk, base, first) + 16 * Nibbles(disk, base, first + 1, n - 1)
  {
  }

  lemma NoNibbles(disk: seq<Byte>, base: nat, first: nat)
    ensures Nibbles(disk, base, first, 0) == 0
  {
  }

  lemma NibblesOfOne(disk: seq<Byte>, base: nat, first: nat)
    requires first % 2 == 0 && base + first / 2 < |disk|
    ensures Nibbles(disk, base, first, 1) == disk[base + first / 2] % 16
  {
    NoNibbles(disk, base, first + 1);
  }

  /** A byte is its two halves. */
  lemma ByteNibbles(disk: seq<Byte>, base: nat, first: nat, n: nat)
    requires first % 2 == 0 && n >= 2 && base + (first + n - 1) / 2 < |disk|
    ensures Nibbles(disk, base, first, n) == disk[base + first / 2] as int + 256 * Nibbles(disk, base, first + 2, n - 2)
  {
    hide Nibbles;
    NextNibble(disk, base, first, n);
    NextNibble(disk, base, first + 1, n - 1);
    assert (first + 1) / 2 == first / 2;
  }

  /** An entry is an end-of-file mark when all its bits but the low three are set. */
  lemma EndMarks(ty: FatType, v: nat)
    requires v < Modulus(ty)
    ensures v >= Eof(ty) <==> v / 8 == (match ty case Fat12 => 0x1FF case Fat16 => 0x1FFF case Fat32 => 0x1FF_FFFF case ExFat => 0x1FFF_FFFF)
  {
  }

  /** The table is an array: setting an entry makes it the value, cut to the width of an entry, and changes no other
      entry, although 12-bit neighbours share a byte. */
  lemma SetThenGet(ty: FatType, disk: seq<Byte>, base: nat, c: nat, next: nat, d: nat)
    requires OnDisk(ty, disk, base, c) && OnDisk(ty, disk, base, d)
    ensures GetEntry(ty, SetEntry(ty, disk, base, c, next), base, d) == if d == c then next % Modulus(ty) else GetEntry(ty, disk, base, d)
  {
    match ty {
      case Fat12 => SetThenGet12(disk, base, c, next, d);
      case Fat16 => SetThenGet16(disk, base, c, next, d);
      case _ => SetThenGet32(ty, disk, base, c, next, d);
    }
  }

  lemma SetThenGet16(disk: seq<Byte>, base: nat, c: nat, next: nat, d: nat)
    requires OnDisk(Fat16, disk, base, c) && OnDisk(Fat16, disk, base, d)
    ensures GetEntry(Fat16, SetEntry(Fat16, disk, base, c, next), base, d) ==
      if d == c then next % 0x1_0000 else GetEntry(Fat16, disk, base, d)
  {
  }

  lemma LongApart(disk: seq<Byte>, at: nat, buf: seq<Byte>, p: nat)
    requires at + |buf| <= |disk| && p + 4 <= |disk| && (p + 4 <= at || at + |buf| <= p)
    ensures Word32(Splice(disk, at, buf), p) == Word32(disk, p)
  {
  }

  lemma SetThenGet32(ty: FatType, disk: seq<Byte>, base: nat, c: nat, next: nat, d: nat)
    requires ty.Fat32? || ty.ExFat?
    requires OnDisk(ty, disk, base, c) && OnDisk(ty, disk, base, d)
    ensures GetEntry(ty, SetEntry(ty, disk, base, c, next), base, d) == if d == c then next % Modulus(ty) else GetEntry(ty, disk, base, d)
  {
    hide Bytes32, Splice, Word32;
    var v := next % Modulus(ty);
    Word32Of(disk, base + 4 * c, v);
    if d != c {
      LongApart(disk, base + 4 * c, Bytes32(v), base + 4 * d);
    }
  }

  /** Bytes written elsewhere leave a word as it is. */
  lemma WordApart(disk: seq<Byte>, at: nat, buf: seq<Byte>, p: nat)
    requires at + |buf| <= |disk| && p + 2 <= |disk| && (p + 2 <= at || at + |buf| <= p)
    ensures Word16(Splice(disk, at, buf), p) == Word16(disk, p)
  {
  }

  lemma SetThenGet12(disk: seq<Byte>, base: nat, c: nat, next: nat, d: nat)
    requires OnDisk(Fat12, disk, base, c) && OnDisk(Fat12, disk, base, d)
    ensures GetEntry(Fat12, SetEntry(Fat12, disk, base, c, next), base, d) ==
      if d == c then next % 0x1000 else GetEntry(Fat12, disk, base, d)
  {
    hide Bytes16, NewWord12;
    var at := base + EntryOffset(Fat12, c);
    var was := Word16(disk, at);
    var w := NewWord12(was, c, next);
    NewWordParts(was, c, next);
    Word16Of(disk, at, w);
    var s := Splice(disk, at, Bytes16(w));
    BytesOf16(w);
    assert disk[at] == was % 256 && disk[at + 1] == was / 256;
    if d == c + 1 && c % 2 == 0 {
      assert EntryOffset(Fat12, d) == EntryOffset(Fat12, c) + 1;
      HighNibble(w, was, disk[at + 2]);
    } else if c == d + 1 && d % 2 == 0 {
      assert EntryOffset(Fat12, d) == EntryOffset(Fat12, c) - 1;
      LowNibble(w, was, disk[at - 1]);
    } else if d != c {
      assert EntryOffset(Fat12, d) + 2 <= EntryOffset(Fat12, c) || EntryOffset(Fat12, c) + 2 <= EntryOffset(Fat12, d);
      hide Splice, Word16;
      WordApart(disk, at, Bytes16(w), base + EntryOffset(Fat12, d));
    }
  }

  lemma BytesOf16(v: nat)
    requires v < 0x1_0000
    ensures Bytes16(v)[0] == v % 256 && Bytes16(v)[1] == v / 256
  {
  }

  lemma NewWordParts(was: nat, c: nat, next: nat)
    requires was < 0x1_0000
    ensures var w := NewWord12(was, c, next);
      && w < 0x1_0000
      && (c % 2 == 1 ==> w % 16 == was % 16 && w / 16 == next % 0x1000)
      && (c % 2 == 0 ==> w / 0x1000 == was / 0x1000 && w % 0x1000 == next % 0x1000)
  {
    if c % 2 == 1 {
      assert next * 16 % 0x1_0000 == (next % 0x1000) * 16;
    }
  }

  /** The even entry of a pair was set: the odd one keeps its low four bits, which are in the byte written. */
  lemma HighNibble(w: nat, was: nat, third: nat)
    requires w < 0x1_0000 && was < 0x1_0000 && w / 0x1000 == was / 0x1000
    ensures (w / 256 + 256 * third) / 16 == (was / 256 + 256 * third) / 16
  {
    NibbleOf(w, third);
    NibbleOf(was, third);
  }

  lemma NibbleOf(w: nat, third: nat)
    ensures (w / 256 + 256 * third) / 16 == w / 0x1000 + 16 * third
  {
    var h := w / 256;
    assert h / 16 == w / 0x1000;
    assert h + 256 * third == (h / 16 + 16 * third) * 16 + h % 16;
  }

  lemma LowNibble(w: nat, was: nat, first: nat)
    requires w < 0x1_0000 && was < 0x1_0000 && w % 16 == was % 16 && first < 256
    ensures (first + 256 * (w % 256)) % 0x1000 == (first + 256 * (was % 256)) % 0x1000
  {
    assert w % 256 % 16 == was % 256 % 16;
    Folded(w % 256, first);
    Folded(was % 256, first);
  }

  lemma Folded(x: nat, first: nat)
    requires x < 256 && first < 256
    ensures (first + 256 * x) % 0x1000 == first + 256 * (x % 16)
  {
  }

  /** The 12-bit setter takes the table to begin at block `reserved`, the getter at block `reserved * ratio`, where
      `ratio` is the number of blocks of a sector. They agree on every disk exactly when those are the same block. */
  lemma Fat12BasesAgreeIff(reserved: nat, ratio: nat, blockSize: nat)
    requires ratio > 0 && blockSize >= 2
    ensures (forall disk, c, next :: OnDisk(Fat12, disk, reserved * ratio * blockSize, c) && OnDisk(Fat12, disk, reserved * blockSize, c) ==>
               SetIsSeen(disk, reserved * blockSize, reserved * ratio * blockSize, c, next))
      <==> reserved == 0 || ratio == 1
  {
    var setBase, getBase := reserved * blockSize, reserved * ratio * blockSize;
    if reserved == 0 || ratio == 1 {
      assert setBase == getBase;
      forall disk, c, next | OnDisk(Fat12, disk, getBase, c) ensures SetIsSeen(disk, setBase, getBase, c, next) {
        SetThenGet(Fat12, disk, setBase, c, next, c);
      }
    } else {
      assert getBase >= setBase + 2 by {
        MulMono(2, ratio, reserved);
        MulMono(2 * reserved, ratio * reserved, blockSize);
        MulMono(1, reserved, blockSize);
      }
      var disk: seq<Byte> := seq(getBase + 2, _ => 0);
      assert GetEntry(Fat12, SetEntry(Fat12, disk, setBase, 0, 1), getBase, 0) == 0;
      assert !SetIsSeen(disk, setBase, getBase, 0, 1);
    }
  }

  predicate SetIsSeen(disk: seq<Byte>, setBase: nat, getBase: nat, c: nat, next: nat)
    requires OnDisk(Fat12, disk, setBase, c) && OnDisk(Fat12, disk, getBase, c)
  {
    GetEntry(Fat12, SetEntry(Fat12, disk, setBase, c, next), getBase, c) == next % 0x1000
  }
}
