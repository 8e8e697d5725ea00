/** The physical free list (kernel/physical_manager.cpp): a fixed array of blocks edited in place.

    `FreeList` is the list as a value: what each call does to it, in 32-bit arithmetic, and what that means for the
    set of free bytes. `PhysicalMemory` is the array and its in-place edits. */
module FreeList {
  import opened Bytes

  datatype MemoryBlock = MemoryBlock(offset: nat, length: nat) {
    function End(): nat { offset + length }
  }

  /** Non-empty blocks, strictly ordered with a gap between neighbours, below the last byte of the address space. */
  ghost predicate Canonical(s: seq<MemoryBlock>) {
    && (forall i :: 0 <= i < |s| ==> s[i].length > 0 && s[i].End() < 0x1_0000_0000)
    && (forall i, j :: 0 <= i < j < |s| ==> s[i].End() < s[j].offset)
  }

  ghost predicate Free(s: seq<MemoryBlock>, a: int) {
    exists i :: 0 <= i < |s| && s[i].offset <= a < s[i].End()
  }

  predicate In(a: int, lo: nat, size: nat) {
    lo <= a < lo + size
  }

  // ---- canonical form ----

  /** The canonical list of a set of free bytes is unique. */
  lemma {:induction false} CanonicalUnique(s: seq<MemoryBlock>, t: seq<MemoryBlock>)
    requires Canonical(s) && Canonical(t)
    requires forall a :: Free(s, a) <==> Free(t, a)
    ensures s == t
  {
    assert s != [] ==> Free(s, s[0].offset);
    assert t != [] ==> Free(t, t[0].offset);
    if s != [] {
      FirstBlockBelow(s, t);
      FirstBlockBelow(t, s);
      TailsAgree(s, t);
      CanonicalUnique(s[1..], t[1..]);
      assert s == [s[0]] + s[1..] && t == [t[0]] + t[1..];
    }
  }

  lemma TailsAgree(s: seq<MemoryBlock>, t: seq<MemoryBlock>)
    requires Canonical(s) && Canonical(t) && s != [] && t != [] && s[0] == t[0]
    requires forall a :: Free(s, a) <==> Free(t, a)
    ensures Canonical(s[1..]) && Canonical(t[1..])
    ensures forall a :: Free(s[1..], a) <==> Free(t[1..], a)
  {
    forall a ensures Free(s[1..], a) <==> Free(t[1..], a) {
      FreeTail(s, a);
      FreeTail(t, a);
    }
  }

  lemma FreeTail(s: seq<MemoryBlock>, a: int)
    requires Canonical(s) && s != []
    ensures Free(s[1..], a) <==> Free(s, a) && a >= s[0].End()
  {
  }

  /** The first block of `t` starts no later and, starting together, ends no earlier than that of `s`. */
  lemma FirstBlockBelow(s: seq<MemoryBlock>, t: seq<MemoryBlock>)
    requires Canonical(s) && Canonical(t) && s != [] && t != []
    requires forall a :: Free(s, a) <==> Free(t, a)
    ensures t[0].offset <= s[0].offset && (t[0].offset == s[0].offset ==> s[0].End() <= t[0].End())
  {
    assert Free(s, s[0].offset);
    var i :| 0 <= i < |t| && t[i].offset <= s[0].offset < t[i].End();
    var e := t[0].End();
    assert s[0].offset <= e < s[0].End() ==> Free(s, e);
  }

  /** A free run of bytes lies inside one block. */
  lemma RunInOneBlock(s: seq<MemoryBlock>, lo: nat, size: nat) returns (i: nat)
    requires Canonical(s) && size > 0
    requires forall a :: In(a, lo, size) ==> Free(s, a)
    ensures i < |s| && s[i].offset <= lo && lo + size <= s[i].End()
  {
    assert In(lo, lo, size);
    i :| 0 <= i < |s| && s[i].offset <= lo < s[i].End();
    if s[i].End() < lo + size {
      assert In(s[i].End(), lo, size);
    }
  }

  ghost predicate RemovesExactly(s: seq<MemoryBlock>, t: seq<MemoryBlock>, lo: nat, size: nat) {
    forall a :: Free(t, a) <==> Free(s, a) && !In(a, lo, size)
  }

  // ---- claiming part of a block (physical_manager.cpp:75-100) ----

  /** What is left of a block when `size` bytes are taken `offset` bytes into it. */
  function Rest(b: MemoryBlock, offset: nat, size: nat): (r: seq<MemoryBlock>)
    ensures |r| <= 2
  {
    var taken := Trunc32(size + offset);
    var length := Trunc32(b.length - taken);
    if length == 0 then
      if offset > 0 then [MemoryBlock(b.offset, offset)] else []
    else
      (if offset > 0 then [MemoryBlock(b.offset, offset)] else []) + [MemoryBlock(Trunc32(b.offset + taken), length)]
  }

  function Claimed(s: seq<MemoryBlock>, it: nat, offset: nat, size: nat): (r: seq<MemoryBlock>)
    requires it < |s|
    ensures |r| == |s| - 1 + |Rest(s[it], offset, size)|
  {
    s[..it] + Rest(s[it], offset, size) + s[it + 1..]
  }

  lemma FreeConcat(u: seq<MemoryBlock>, v: seq<MemoryBlock>, a: int)
    ensures Free(u + v, a) <==> Free(u, a) || Free(v, a)
  {
    if i :| 0 <= i < |u| && u[i].offset <= a < u[i].End() {
      assert (u + v)[i] == u[i];
    }
    if i :| 0 <= i < |v| && v[i].offset <= a < v[i].End() {
      assert (u + v)[|u| + i] == v[i];
    }
  }

  /** Freedom after the blocks `lo..hi` of `s` have been replaced by `mid`. */
  lemma FreeReplaced(s: seq<MemoryBlock>, lo: nat, hi: nat, mid: seq<MemoryBlock>, a: int)
    requires lo <= hi <= |s|
    ensures Free(s[..lo] + mid + s[hi..], a) <==> Free(s[..lo], a) || Free(mid, a) || Free(s[hi..], a)
    ensures Free(s, a) <==> Free(s[..lo], a) || Free(s[lo..hi], a) || Free(s[hi..], a)
  {
    FreeConcat(s[..lo] + mid, s[hi..], a);
    FreeConcat(s[..lo], mid, a);
    FreeConcat(s[..lo] + s[lo..hi], s[hi..], a);
    FreeConcat(s[..lo], s[lo..hi], a);
    assert s == s[..lo] + s[lo..hi] + s[hi..];
  }

  /** In a canonical list the blocks before `lo` lie below, and those from `hi` on above, what lies between. */
  lemma Sides(s: seq<MemoryBlock>, lo: nat, hi: nat, a: int)
    requires Canonical(s) && lo < hi <= |s| && s[lo].offset <= a < s[hi - 1].End()
    ensures !Free(s[..lo], a) && !Free(s[hi..], a)
  {
  }

  lemma CanonicalConcat(u: seq<MemoryBlock>, v: seq<MemoryBlock>)
    ensures Canonical(u + v) <==>
      Canonical(u) && Canonical(v) && forall i, k :: 0 <= i < |u| && 0 <= k < |v| ==> u[i].End() < v[k].offset
  {
    var t := u + v;
    if Canonical(t) {
      assert forall i :: 0 <= i < |u| ==> u[i] == t[i];
      assert forall k :: 0 <= k < |v| ==> v[k] == t[|u| + k];
    }
  }

  /** Replacing blocks by a run that fits in their place keeps the list canonical exactly when the run is. */
  lemma CanonicalReplaced(s: seq<MemoryBlock>, lo: nat, hi: nat, mid: seq<MemoryBlock>)
    requires Canonical(s) && lo <= hi <= |s|
    requires forall i, k :: 0 <= i < lo && 0 <= k < |mid| ==> s[i].End() < mid[k].offset
    requires forall k, i :: 0 <= k < |mid| && hi <= i < |s| ==> mid[k].End() < s[i].offset
    ensures Canonical(s[..lo] + mid + s[hi..]) <==> Canonical(mid)
  {
    assert s == s[..hi] + s[hi..];
    assert s == s[..lo] + s[lo..];
    CanonicalConcat(s[..hi], s[hi..]);
    CanonicalConcat(s[..lo], s[lo..]);
    CanonicalConcat(s[..lo] + mid, s[hi..]);
    CanonicalConcat(s[..lo], mid);
  }

  /** A claim removes exactly its range. It keeps the list canonical unless it claims nothing in the middle of a
      block, which leaves two blocks that touch. */
  lemma ClaimedIsExact(s: seq<MemoryBlock>, it: nat, offset: nat, size: nat)
    requires Canonical(s) && it < |s| && offset + size <= s[it].length
    ensures Canonical(Claimed(s, it, offset, size)) <==> !(size == 0 && 0 < offset < s[it].length)
    ensures RemovesExactly(s, Claimed(s, it, offset, size), s[it].offset + offset, size)
  {
    var r := Rest(s[it], offset, size);
    CanonicalReplaced(s, it, it + 1, r);
    RestCanonical(s[it], offset, size);
    ClaimedFree(s, it, offset, size);
  }

  lemma ClaimedFree(s: seq<MemoryBlock>, it: nat, offset: nat, size: nat)
    requires Canonical(s) && it < |s| && offset + size <= s[it].length
    ensures RemovesExactly(s, Claimed(s, it, offset, size), s[it].offset + offset, size)
  {
    var r := Rest(s[it], offset, size);
    forall a ensures Free(Claimed(s, it, offset, size), a) <==> Free(s, a) && !In(a, s[it].offset + offset, size) {
      FreeReplaced(s, it, it + 1, r, a);
      if s[it].offset <= a < s[it].End() {
        Sides(s, it, it + 1, a);
      }
      RestFree(s[it], offset, size, a);
      assert s[it..it + 1] == [s[it]];
      assert Free([s[it]], a) <==> s[it].offset <= a < s[it].End();
    }
  }

  lemma RestCanonical(b: MemoryBlock, offset: nat, size: nat)
    requires offset + size <= b.length && b.length > 0 && b.End() < 0x1_0000_0000
    ensures Canonical(Rest(b, offset, size)) <==> !(size == 0 && 0 < offset < b.length)
  {
    var r := Rest(b, offset, size);
    if size == 0 && 0 < offset < b.length {
      assert r[0].End() == r[1].offset;
    }
  }

  lemma RestFree(b: MemoryBlock, offset: nat, size: nat, a: int)
    requires offset + size <= b.length && b.length > 0 && b.End() < 0x1_0000_0000
    ensures Free(Rest(b, offset, size), a) <==> b.offset <= a < b.End() && !In(a, b.offset + offset, size)
  {
    var r := Rest(b, offset, size);
    if b.offset <= a < b.End() && !In(a, b.offset + offset, size) {
      var k := if a < b.offset + offset then 0 else |r| - 1;
      assert r[k].offset <= a < r[k].End();
    }
  }

  // ---- reserve (physical_manager.cpp:124-161) ----

  datatype Turn = Done(blocks: seq<MemoryBlock>) | Next(blocks: seq<MemoryBlock>, it: nat, address: nat, size: nat)

  /** One turn of the loop at block `it`. */
  function ReserveTurn(s: seq<MemoryBlock>, it: nat, address: nat, size: nat): (r: Turn)
    requires it < |s|
    ensures r.Next? ==> r.it <= |r.blocks| && |r.blocks| - r.it == |s| - it - 1 && |r.blocks| <= |s| + 1
  {
    var b := s[it];
    if b.offset > Trunc32(address + size) then Done(s)
    else
      var left := if b.offset > address then Trunc32(size - (b.offset - address)) else size;
      var from := if b.offset > address then b.offset else address;
      var padding := from - b.offset;
      var available := Trunc32(b.length - padding);
      var claimed := if available < left then available else left;
      if b.length >= Trunc32(claimed + padding) then
        var t := Claimed(s, it, padding, claimed);
        if left == claimed then Done(t)
        else Next(t, it + |Rest(b, padding, claimed)|, Trunc32(from + claimed), left - claimed)
      else if left == 0 then Done(s)
      else Next(s, it + 1, from, left)
  }

  function Reserved(s: seq<MemoryBlock>, it: nat, address: nat, size: nat): seq<MemoryBlock>
    requires it <= |s|
    decreases |s| - it
  {
    if it == |s| then s
    else
      match ReserveTurn(s, it, address, size)
      case Done(t) => t
      case Next(t, k, from, left) => Reserved(t, k, from, left)
  }

  lemma RemovesTwice(s: seq<MemoryBlock>, t: seq<MemoryBlock>, u: seq<MemoryBlock>, lo: nat, m: nat, n: nat)
    requires RemovesExactly(s, t, lo, m) && RemovesExactly(t, u, lo + m, n)
    ensures RemovesExactly(s, u, lo, m + n)
  {
  }

  lemma RemovesNothing(s: seq<MemoryBlock>, lo: nat)
    ensures RemovesExactly(s, s, lo, 0)
  {
  }

  /** Reserving subtracts the range from the free set, across any number of blocks. */
  lemma {:induction false} ReservedIsExact(s: seq<MemoryBlock>, it: nat, address: nat, size: nat)
    requires Canonical(s) && it <= |s| && address + size < 0x1_0000_0000
    requires forall j :: 0 <= j < it ==> s[j].End() <= address
    ensures RemovesExactly(s, Reserved(s, it, address, size), address, size)
    ensures size > 0 ==> Canonical(Reserved(s, it, address, size))
    decreases |s| - it, 1
  {
    hide Canonical, Rest, Claimed, Trunc32, Reserved, ReserveTurn, RemovesExactly;
    var from := if it < |s| && address < s[it].offset then s[it].offset else address;
    ReservedShift(s, it, address, size);
    if it == |s| || from > address + size {
      RemovesNothing(s, address + size);
      GapRemoved(s, s, it, address, address + size, 0);
    } else {
      ReservedFrom(s, it, from, address + size - from);
      GapRemoved(s, Reserved(s, it, address, size), it, address, from, address + size - from);
    }
  }

  /** What lies below block `it` is not looked at. */
  lemma ReservedShift(s: seq<MemoryBlock>, it: nat, address: nat, size: nat)
    requires Canonical(s) && it <= |s| && address + size < 0x1_0000_0000
    ensures var from := if it < |s| && address < s[it].offset then s[it].offset else address;
      Reserved(s, it, address, size) ==
        if it == |s| || from > address + size then s else Reserved(s, it, from, address + size - from)
  {
    hide Canonical, ReserveTurn;
    if it < |s| {
      TurnShift(s, it, address, size);
    }
  }

  lemma TurnShift(s: seq<MemoryBlock>, it: nat, address: nat, size: nat)
    requires Canonical(s) && it < |s| && address + size < 0x1_0000_0000
    ensures var from := if address < s[it].offset then s[it].offset else address;
      ReserveTurn(s, it, address, size) == if from > address + size then Done(s) else ReserveTurn(s, it, from, address + size - from)
  {
    hide Rest, Claimed;
  }

  /** Removing also the gap before block `it` removes nothing more. */
  lemma GapRemoved(s: seq<MemoryBlock>, t: seq<MemoryBlock>, it: nat, address: nat, from: nat, left: nat)
    requires Canonical(s) && it <= |s| && forall j :: 0 <= j < it ==> s[j].End() <= address
    requires address <= from && (it < |s| ==> from <= s[it].offset || from == address)
    requires RemovesExactly(s, t, from, left)
    ensures RemovesExactly(s, t, address, from - address + left)
  {
  }

  /** Taking a block up to its end leaves only blocks that end where the taken part begins, or earlier. */
  lemma ClaimedToEnd(s: seq<MemoryBlock>, it: nat, padding: nat)
    requires Canonical(s) && it < |s| && padding <= s[it].length
    ensures var n := it + |Rest(s[it], padding, s[it].length - padding)|;
      var t := Claimed(s, it, padding, s[it].length - padding);
      |t| - n == |s| - it - 1 && n <= it + 1 && forall j :: 0 <= j < n ==> t[j].End() <= s[it].End()
  {
  }

  /** A turn at a block that starts no higher than the range: it is passed over if it ends below, else the range is cut
      to what the block can give and that part is claimed. */
  lemma TurnFrom(s: seq<MemoryBlock>, it: nat, from: nat, left: nat)
    requires it < |s| && from + left < 0x1_0000_0000 && s[it].offset <= from && s[it].End() < 0x1_0000_0000
    ensures ReserveTurn(s, it, from, left) ==
      if s[it].End() < from then
        if left == 0 then Done(s) else Next(s, it + 1, from, left)
      else
        var padding, available := from - s[it].offset, s[it].End() - from;
        var claimed := if available < left then available else left;
        var t := Claimed(s, it, padding, claimed);
        if left == claimed then Done(t)
        else Next(t, it + |Rest(s[it], padding, claimed)|, from + claimed, left - claimed)
  {
  }

  /** The same once the range starts no lower than block `it`. */
  lemma {:induction false} ReservedFrom(s: seq<MemoryBlock>, it: nat, from: nat, left: nat)
    requires Canonical(s) && it < |s| && from + left < 0x1_0000_0000 && s[it].offset <= from
    requires forall j :: 0 <= j < it ==> s[j].End() <= from
    ensures RemovesExactly(s, Reserved(s, it, from, left), from, left)
    ensures left > 0 || s[it].offset == from ==> Canonical(Reserved(s, it, from, left))
    decreases |s| - it, 0
  {
    hide Free, Claimed, Rest, Canonical, RemovesExactly, ReserveTurn;
    CanonicalAt(s, it);
    TurnFrom(s, it, from, left);
    var b := s[it];
    var padding := from - b.offset;
    if b.End() < from {
      if left == 0 {
        RemovesNothing(s, from);
      } else {
        ReservedIsExact(s, it + 1, from, left);
      }
    } else {
      var available := b.length - padding;
      var claimed := if available < left then available else left;
      var r, t := Rest(b, padding, claimed), Claimed(s, it, padding, claimed);
      ClaimedIsExact(s, it, padding, claimed);
      if left != claimed {
        ClaimedToEnd(s, it, padding);
        ReservedIsExact(t, it + |r|, from + claimed, left - claimed);
        RemovesTwice(s, t, Reserved(s, it, from, left), from, claimed, left - claimed);
      }
    }
  }

  /** A turn that is not the last leaves a canonical list of no more blocks. */
  lemma TurnKeeps(s: seq<MemoryBlock>, it: nat, address: nat, size: nat)
    requires Canonical(s) && it < |s| && address + size < 0x1_0000_0000
    ensures var r := ReserveTurn(s, it, address, size);
      r.Next? ==> r.address + r.size < 0x1_0000_0000 && Canonical(r.blocks) && |r.blocks| <= |s|
  {
    hide Claimed, Rest, Trunc32;
    var b := s[it];
    var from := if b.offset > address then b.offset else address;
    if b.offset <= address + size && from <= b.End() {
      assert ReserveTurn(s, it, address, size) == ReserveTurn(s, it, from, address + size - from);
      TurnFrom(s, it, from, address + size - from);
      var left, available := address + size - from, b.End() - from;
      var claimed := if available < left then available else left;
      ClaimedToEnd(s, it, from - b.offset);
      ClaimedIsExact(s, it, from - b.offset, claimed);
    }
  }

  /** A reserve keeps the list canonical except for one: of nothing, strictly inside the first block, which is then
      cut in two. */
  lemma ReserveKeepsCanonicalIff(s: seq<MemoryBlock>, address: nat, size: nat)
    requires Canonical(s) && address + size < 0x1_0000_0000
    ensures Canonical(Reserved(s, 0, address, size))
       <==> !(size == 0 && s != [] && s[0].offset < address < s[0].End())
  {
    ReservedIsExact(s, 0, address, size);
    if size == 0 && s != [] && s[0].offset <= address {
      var padding := address - s[0].offset;
      if padding <= s[0].length {
        ClaimedIsExact(s, 0, padding, 0);
      }
    }
  }

  /** Reserving is exact for every free list exactly when the range does not wrap past the end of the address space. */
  lemma ReserveExactIff(address: nat, size: nat)
    requires address < 0x1_0000_0000 && size < 0x1_0000_0000
    ensures (forall s :: Canonical(s) ==> RemovesExactly(s, Reserved(s, 0, address, size), address, size))
       <==> address + size < 0x1_0000_0000
  {
    if address + size < 0x1_0000_0000 {
      forall s | Canonical(s) ensures RemovesExactly(s, Reserved(s, 0, address, size), address, size) {
        ReservedIsExact(s, 0, address, size);
      }
    } else if address < 0xFFFF_FFFF {
      var s := [MemoryBlock(0xFFFF_FFFE, 1)];
      assert Canonical(s) && ReserveTurn(s, 0, address, size) == Done(s);
      assert s[0].offset <= 0xFFFF_FFFE < s[0].End();
      assert Free(s, 0xFFFF_FFFE) && In(0xFFFF_FFFE, address, size);
    } else {
      var l := if size == 1 then 1 else size - 1;
      var s := [MemoryBlock(0, l)];
      assert Canonical(s) && !Free(s, l);
      var t := Reserved(s, 0, address, size);
      assert Trunc32(size + address) == size - 1;
      assert ReserveTurn(s, 0, address, size) == Done(Claimed(s, 0, address, size));
      assert t == Rest(s[0], address, size);
      assert t[0] == MemoryBlock(0, address);
      assert Free(t, l);
    }
  }

  // ---- free (physical_manager.cpp:163-203) ----

  function Freed(s: seq<MemoryBlock>, it: nat, address: nat, size: nat): seq<MemoryBlock>
    requires it <= |s|
    decreases |s| - it
  {
    if it == |s| then s + [MemoryBlock(address, size)]
    else
      var b := s[it];
      if b.End() < address then Freed(s, it + 1, address, size)
      else if b.End() == address then
        if it + 1 < |s| && s[it + 1].offset == address + size then
          s[..it] + [MemoryBlock(b.offset, b.length + size + s[it + 1].length)] + s[it + 2..]
        else
          s[..it] + [MemoryBlock(b.offset, b.length + size)] + s[it + 1..]
      else if b.offset == address + size then
        s[..it] + [MemoryBlock(address, b.length + size)] + s[it + 1..]
      else
        s[..it] + [MemoryBlock(address, size)] + s[it..]
  }

  lemma FreedBelow(s: seq<MemoryBlock>, it: nat, address: nat, size: nat)
    requires it < |s| && s[it].End() == address
    ensures var joined := it + 1 < |s| && s[it + 1].offset == address + size;
      Freed(s, it, address, size) ==
        s[..it] + [MemoryBlock(s[it].offset, s[it].length + size + if joined then s[it + 1].length else 0)]
        + s[if joined then it + 2 else it + 1..]
  {
  }

  ghost predicate AddsExactly(s: seq<MemoryBlock>, t: seq<MemoryBlock>, lo: nat, size: nat) {
    forall a :: Free(t, a) <==> Free(s, a) || In(a, lo, size)
  }

  /** What a caller may free: a non-empty range, none of it free already, below the end of the address space. */
  ghost predicate Freeable(s: seq<MemoryBlock>, address: nat, size: nat) {
    && size > 0 && address + size < 0x1_0000_0000
    && forall a :: In(a, address, size) ==> !Free(s, a)
  }

  /** Freeing adds the range to the free set and merges it with both neighbours where they touch. */
  lemma {:induction false} FreedIsExact(s: seq<MemoryBlock>, it: nat, address: nat, size: nat)
    requires Canonical(s) && it <= |s| && Freeable(s, address, size)
    requires forall j :: 0 <= j < it ==> s[j].End() < address
    ensures Canonical(Freed(s, it, address, size))
    ensures AddsExactly(s, Freed(s, it, address, size), address, size)
    decreases |s| - it
  {
    if it == |s| {
      MergeAt(s, it, it, MemoryBlock(address, size), address, size);
      assert s[..it] + [MemoryBlock(address, size)] + s[it..] == s + [MemoryBlock(address, size)];
    } else if s[it].End() < address {
      FreedIsExact(s, it + 1, address, size);
    } else {
      FreedHere(s, it, address, size);
    }
  }

  lemma FreedHere(s: seq<MemoryBlock>, it: nat, address: nat, size: nat)
    requires Canonical(s) && it < |s| && Freeable(s, address, size) && s[it].End() >= address
    requires forall j :: 0 <= j < it ==> s[j].End() < address
    ensures Canonical(Freed(s, it, address, size))
    ensures AddsExactly(s, Freed(s, it, address, size), address, size)
  {
    hide Canonical;
    FreeNone();
    assert s[it..it] == [];
    CanonicalAt(s, it);
    var b := s[it];
    FreeAbove(s, it, address, size);
    FreeOne(b);
    assert s[it..it + 1] == [b];
    if b.End() == address {
      if it + 1 < |s| {
        FreeAbove(s, it + 1, address, size);
      }
      if it + 1 < |s| && s[it + 1].offset == address + size {
        JoinsBoth(s, it, address, size);
      } else {
        MergeAt(s, it, it + 1, MemoryBlock(b.offset, b.length + size), address, size);
      }
    } else if b.offset == address + size {
      MergeAt(s, it, it + 1, MemoryBlock(address, b.length + size), address, size);
    } else {
      MergeAt(s, it, it, MemoryBlock(address, size), address, size);
    }
  }

  /** The freed range closes the gap between two blocks. */
  lemma JoinsBoth(s: seq<MemoryBlock>, it: nat, address: nat, size: nat)
    requires Canonical(s) && it + 1 < |s| && s[it].End() == address && s[it + 1].offset == address + size
    ensures var t := s[..it] + [MemoryBlock(s[it].offset, s[it].length + size + s[it + 1].length)] + s[it + 2..];
      Canonical(t) && AddsExactly(s, t, address, size)
  {
    hide Free, RunIs, Canonical;
    CanonicalAt(s, it);
    JoinedRun(s[it], s[it + 1]);
    assert s[it..it + 2] == [s[it]] + [s[it + 1]];
    MergeAt(s, it, it + 2, MemoryBlock(s[it].offset, s[it].length + size + s[it + 1].length), address, size);
  }

  lemma JoinedRun(b: MemoryBlock, c: MemoryBlock)
    requires b.End() <= c.offset
    ensures RunIs([b] + [c], MemoryBlock(b.offset, c.End() - b.offset), b.End(), c.offset - b.End())
  {
    FreeOne(b);
    FreeOne(c);
    forall a ensures Free([b] + [c], a) <==> Free([b], a) || Free([c], a) {
      FreeConcat([b], [c], a);
    }
  }

  /** `m` is the run of blocks and the freed range together. */
  ghost predicate RunIs(run: seq<MemoryBlock>, m: MemoryBlock, address: nat, size: nat) {
    forall a :: m.offset <= a < m.End() <==> Free(run, a) || In(a, address, size)
  }

  lemma FreeNone()
    ensures forall a :: !Free([], a)
  {
  }

  /** What canonical form says about one block and its successor. */
  lemma CanonicalAt(s: seq<MemoryBlock>, i: nat)
    requires Canonical(s) && i < |s|
    ensures s[i].length > 0 && s[i].End() < 0x1_0000_0000
    ensures i + 1 < |s| ==> s[i].End() < s[i + 1].offset && s[i + 1].End() < 0x1_0000_0000
    ensures i + 2 < |s| ==> s[i + 1].End() < s[i + 2].offset
    ensures i > 0 ==> s[i - 1].End() < s[i].offset
  {
  }

  lemma FreeOne(b: MemoryBlock)
    ensures forall a :: Free([b], a) <==> b.offset <= a < b.End()
  {
    forall a | b.offset <= a < b.End() ensures Free([b], a) {
      assert [b][0].offset <= a < [b][0].End();
    }
  }

  /** A block ending above a freeable range starts above it. */
  lemma FreeAbove(s: seq<MemoryBlock>, i: nat, address: nat, size: nat)
    requires Canonical(s) && i < |s| && Freeable(s, address, size)
    ensures s[i].End() > address ==> s[i].offset >= address + size
  {
    if s[i].End() > address && s[i].offset < address + size {
      var a := if s[i].offset < address then address else s[i].offset;
      assert Free(s, a) && In(a, address, size);
    }
  }

  /** Blocks `lo..hi` and the freed range become the one block `m`. */
  lemma MergeAt(s: seq<MemoryBlock>, lo: nat, hi: nat, m: MemoryBlock, address: nat, size: nat)
    requires Canonical(s) && lo <= hi <= |s| && m.length > 0 && m.End() < 0x1_0000_0000
    requires lo > 0 ==> s[lo - 1].End() < m.offset
    requires hi < |s| ==> m.End() < s[hi].offset
    requires RunIs(s[lo..hi], m, address, size)
    ensures Canonical(s[..lo] + [m] + s[hi..])
    ensures AddsExactly(s, s[..lo] + [m] + s[hi..], address, size)
  {
    forall i | 0 <= i < lo ensures s[i].End() < m.offset {
      assert s[i].End() <= s[lo - 1].End();
    }
    forall i | hi <= i < |s| ensures m.End() < s[i].offset {
      assert s[hi].offset <= s[i].offset;
    }
    CanonicalReplaced(s, lo, hi, [m]);
    assert Canonical([m]);
    MergedFree(s, lo, hi, m, address, size);
  }

  lemma MergedFree(s: seq<MemoryBlock>, lo: nat, hi: nat, m: MemoryBlock, address: nat, size: nat)
    requires lo <= hi <= |s|
    requires RunIs(s[lo..hi], m, address, size)
    ensures AddsExactly(s, s[..lo] + [m] + s[hi..], address, size)
  {
    forall a ensures Free(s[..lo] + [m] + s[hi..], a) <==> Free(s, a) || In(a, address, size) {
      FreeReplaced(s, lo, hi, [m], a);
      FreeOne(m);
    }
  }

  // ---- allocate (physical_manager.cpp:205-251, common/util.h:25-29) ----

  /** A power of two that fits in 32 bits: what the source asserts of every alignment. */
  predicate AlignOk(align: nat) {
    0 < align <= 0x8000_0000 && Rem(0x1_0000_0000, align) == 0
  }

  /** Round up to a multiple of `align` in 32-bit arithmetic; the mask of the source is this for a power of two. */
  function AlignAddr(addr: nat, align: nat): nat
    requires align > 0
  {
    var t := Trunc32(addr + (align - 1));
    t - Rem(t, align)
  }

  /** Without a wrap, `AlignAddr` is the least multiple of `align` not below `addr`; with one it is 0. */
  lemma AlignAddrIsLeast(addr: nat, align: nat)
    requires AlignOk(align) && addr < 0x1_0000_0000
    ensures addr + align <= 0x1_0000_0000 ==>
      && addr <= AlignAddr(addr, align) < addr + align
      && forall a :: a >= addr && Rem(a, align) == 0 ==> a >= AlignAddr(addr, align)
    ensures addr + align > 0x1_0000_0000 ==> AlignAddr(addr, align) == 0
    ensures Rem(AlignAddr(addr, align), align) == 0
  {
    var t := Trunc32(addr + (align - 1));
    QuotRemUnique(t - Rem(t, align), align, Quot(t, align), 0);
    if addr + align > 0x1_0000_0000 {
      QuotRemUnique(t, align, 0, t);
    } else {
      forall a | a >= addr && Rem(a, align) == 0 ensures a >= AlignAddr(addr, align) {
        if a < AlignAddr(addr, align) {
          AlignedApart(a, AlignAddr(addr, align), align);
        }
      }
    }
  }

  datatype Claim = NoFit | Fit(address: nat, blocks: seq<MemoryBlock>)

  /** What the code returns: 0 for none. */
  function Answer(c: Claim): nat {
    if c.Fit? then c.address else 0
  }

  /** Where block `b` would serve a request placed at `aligned`. */
  function Serve(s: seq<MemoryBlock>, it: nat, aligned: nat, size: nat): Claim
    requires it < |s|
  {
    var padding := Trunc32(aligned - s[it].offset);
    if s[it].length >= Trunc32(size + padding) then Fit(aligned, Claimed(s, it, padding, size)) else NoFit
  }

  function Allocate(s: seq<MemoryBlock>, it: nat, size: nat, align: nat): Claim
    requires it <= |s| && align > 0
    decreases |s| - it
  {
    if it == |s| then NoFit
    else
      var r := Serve(s, it, AlignAddr(s[it].offset, align), size);
      if r.Fit? then r else Allocate(s, it + 1, size, align)
  }

  function AllocateInRange(s: seq<MemoryBlock>, it: nat, start: nat, end: nat, size: nat, align: nat): Claim
    requires it <= |s| && align > 0
    decreases |s| - it
  {
    if it == |s| then NoFit
    else
      var first := AlignAddr(s[it].offset, align);
      if first < start && Trunc32(s[it].End()) < start then AllocateInRange(s, it + 1, start, end, size, align)
      else
        var aligned := if first < start then AlignAddr(start, align) else first;
        if Trunc32(aligned + size) > end then NoFit
        else
          var r := Serve(s, it, aligned, size);
          if r.Fit? then r else AllocateInRange(s, it + 1, start, end, size, align)
  }

  /** `[a, a + size)` is aligned, free, and within `[start, end)`. */
  ghost predicate Fits(s: seq<MemoryBlock>, a: nat, start: nat, end: nat, size: nat, align: nat)
    requires align > 0
  {
    Rem(a, align) == 0 && start <= a && a + size <= end && forall x :: In(x, a, size) ==> Free(s, x)
  }

  /** The answer is right: the lowest fit, removed from the list and nothing else; or none because there is none. */
  ghost predicate IsFirstFit(s: seq<MemoryBlock>, r: Claim, start: nat, end: nat, size: nat, align: nat)
    requires align > 0
  {
    match r
    case NoFit => forall a :: !Fits(s, a, start, end, size, align)
    case Fit(address, t) =>
      && Fits(s, address, start, end, size, align)
      && (forall a :: Fits(s, a, start, end, size, align) ==> address <= a)
      && Canonical(t) && RemovesExactly(s, t, address, size)
  }

  /** A block serves a request at `aligned` exactly when the bytes there are free, and loses exactly those. */
  lemma ServeIsExact(s: seq<MemoryBlock>, it: nat, aligned: nat, size: nat)
    requires Canonical(s) && it < |s| && size > 0
    requires s[it].offset <= aligned < 0x1_0000_0000 && size + (aligned - s[it].offset) < 0x1_0000_0000
    ensures Serve(s, it, aligned, size).Fit? <==> aligned + size <= s[it].End()
    ensures match Serve(s, it, aligned, size)
      case NoFit => true
      case Fit(address, t) => address == aligned && Canonical(t) && RemovesExactly(s, t, aligned, size)
                              && forall x :: In(x, aligned, size) ==> Free(s, x)
  {
    if aligned + size <= s[it].End() {
      ClaimedIsExact(s, it, aligned - s[it].offset, size);
    }
  }

  /** Whatever fits lies in one block, so in block `it` or a later one if no earlier block has a fit. */
  ghost predicate NoFitBefore(s: seq<MemoryBlock>, it: nat, start: nat, end: nat, size: nat, align: nat)
    requires align > 0 && it <= |s|
  {
    forall a: nat, j :: 0 <= j < it && Fits(s, a, start, end, size, align) ==> !(s[j].offset <= a && a + size <= s[j].End())
  }

  /** If `aligned` is the least candidate in block `it` and the block serves it, that is the first fit; if the block
      ends too early, the search moves on. */
  lemma ServeOrSkip(s: seq<MemoryBlock>, it: nat, aligned: nat, start: nat, end: nat, size: nat, align: nat)
    requires Canonical(s) && it < |s| && size > 0 && align > 0
    requires NoFitBefore(s, it, start, end, size, align)
    requires forall a :: a >= s[it].offset && a >= start && Rem(a, align) == 0 ==> a >= aligned
    requires s[it].offset <= aligned && start <= aligned < 0x1_0000_0000 && Rem(aligned, align) == 0
    requires size + (aligned - s[it].offset) < 0x1_0000_0000
    requires Serve(s, it, aligned, size).Fit? ==> aligned + size <= end
    ensures Serve(s, it, aligned, size).Fit? ==> IsFirstFit(s, Serve(s, it, aligned, size), start, end, size, align)
    ensures Serve(s, it, aligned, size).NoFit? ==> NoFitBefore(s, it + 1, start, end, size, align)
  {
    ServeIsExact(s, it, aligned, size);
    if Serve(s, it, aligned, size).Fit? {
      forall a | Fits(s, a, start, end, size, align) ensures aligned <= a {
        FitIsLater(s, it, a, start, end, size, align);
      }
    }
  }

  lemma FitIsLater(s: seq<MemoryBlock>, it: nat, a: nat, start: nat, end: nat, size: nat, align: nat)
    requires Canonical(s) && it < |s| && size > 0 && align > 0
    requires NoFitBefore(s, it, start, end, size, align) && Fits(s, a, start, end, size, align)
    ensures a >= s[it].offset
  {
    var i := RunInOneBlock(s, a, size);
  }

  /** First fit over the whole list, provided no sum wraps. */
  lemma {:induction false} AllocateIsFirstFit(s: seq<MemoryBlock>, it: nat, size: nat, align: nat)
    requires Canonical(s) && it <= |s| && size > 0 && AlignOk(align) && size + align <= 0x1_0000_0000
    requires NoFitBefore(s, it, 0, 0x1_0000_0000, size, align)
    ensures IsFirstFit(s, Allocate(s, it, size, align), 0, 0x1_0000_0000, size, align)
    decreases |s| - it
  {
    if it == |s| {
      forall a ensures !Fits(s, a, 0, 0x1_0000_0000, size, align) {
        if Fits(s, a, 0, 0x1_0000_0000, size, align) {
          var i := RunInOneBlock(s, a, size);
        }
      }
    } else {
      var b := s[it];
      AlignAddrIsLeast(b.offset, align);
      var aligned := AlignAddr(b.offset, align);
      if b.offset + align > 0x1_0000_0000 {
        WrappedBlockServesNothing(s, it, size, align);
        AllocateIsFirstFit(s, it + 1, size, align);
      } else {
        ServeIsExact(s, it, aligned, size);
        ServeOrSkip(s, it, aligned, 0, 0x1_0000_0000, size, align);
        if Serve(s, it, aligned, size).NoFit? {
          AllocateIsFirstFit(s, it + 1, size, align);
        }
      }
    }
  }

  /** A block too close to the end of the address space for its address to be rounded up serves nothing, rightly. */
  lemma WrappedBlockServesNothing(s: seq<MemoryBlock>, it: nat, size: nat, align: nat)
    requires Canonical(s) && it < |s| && size > 0 && AlignOk(align) && size + align <= 0x1_0000_0000
    requires NoFitBefore(s, it, 0, 0x1_0000_0000, size, align) && s[it].offset + align > 0x1_0000_0000
    ensures Serve(s, it, AlignAddr(s[it].offset, align), size).NoFit?
    ensures NoFitBefore(s, it + 1, 0, 0x1_0000_0000, size, align)
  {
    hide Claimed, Free, AlignAddr, Quot, Rem;
    var b := s[it];
    AlignAddrIsLeast(b.offset, align);
    assert Trunc32(0 - b.offset) == 0x1_0000_0000 - b.offset;
    forall a: nat | Fits(s, a, 0, 0x1_0000_0000, size, align) ensures !(b.offset <= a && a + size <= b.End()) {
      if b.offset <= a < b.End() {
        NoMultipleAbove(a, b.offset, align);
      }
    }
  }

  /** Between the last multiple of `align` below 2^32 - align and 2^32 there is none, for a divisor of 2^32. */
  lemma NoMultipleAbove(a: nat, offset: nat, align: nat)
    requires align > 0 && offset + align > 0x1_0000_0000 && offset <= a < 0x1_0000_0000
    ensures Rem(0x1_0000_0000, align) == 0 ==> Rem(a, align) != 0
  {
    if Rem(0x1_0000_0000, align) == 0 && Rem(a, align) == 0 {
      AlignedApart(a, 0x1_0000_0000, align);
    }
  }

  /** Allocation gives the first fit for every free list exactly when size and alignment cannot wrap together. */
  lemma AllocateExactIff(size: nat, align: nat)
    requires 0 < size < 0x1_0000_0000 && AlignOk(align)
    ensures (forall s :: Canonical(s) ==> IsFirstFit(s, Allocate(s, 0, size, align), 0, 0x1_0000_0000, size, align))
       <==> size + align <= 0x1_0000_0000
  {
    if size + align <= 0x1_0000_0000 {
      forall s | Canonical(s) ensures IsFirstFit(s, Allocate(s, 0, size, align), 0, 0x1_0000_0000, size, align) {
        AllocateIsFirstFit(s, 0, size, align);
      }
    } else {
      var wrapped := size + (align - 1) - 0x1_0000_0000;
      var l := if wrapped == 0 then 1 else wrapped;
      var s := [MemoryBlock(1, l)];
      assert Canonical(s);
      QuotRemUnique(align, align, 1, 0);
      assert AlignAddr(1, align) == align;
      assert Trunc32(size + (align - 1)) == wrapped;
      assert Allocate(s, 0, size, align).Fit? && Allocate(s, 0, size, align).address == align;
      assert !Free(s, align) && In(align, align, size);
    }
  }

  /** Bounds, size and alignment for which rounding up and adding the size do no harm. `l` is the lowest aligned address
      in the range. Harm is done by a block whose own address wraps when it is rounded up, by `l + size` wrapping, and by
      a size that wraps with the padding of a block. */
  predicate RangeSafe(start: nat, end: nat, size: nat, align: nat)
    requires align > 0
  {
    var l := AlignAddr(start, align);
    if start + align > 0x1_0000_0000 then size > end
    else
      && !(align >= 4 && 0x1_0000_0000 - align < l + size <= end)
      && !(start > 0 && 0 <= l + size - 0x1_0000_0000 <= end)
      && !(size + align > 0x1_0000_0000 && (if l > align then l else align) + size - 0x1_0000_0000 <= end)
  }

  /** One turn of the search is right: it stops when nothing fits, serves the first fit, or moves on past a block that
      has none. */
  ghost predicate TurnRight(s: seq<MemoryBlock>, it: nat, aligned: nat, start: nat, end: nat, size: nat, align: nat)
    requires align > 0 && it < |s|
  {
    if Trunc32(aligned + size) > end then IsFirstFit(s, NoFit, start, end, size, align)
    else
      var r := Serve(s, it, aligned, size);
      if r.Fit? then IsFirstFit(s, r, start, end, size, align) else NoFitBefore(s, it + 1, start, end, size, align)
  }

  /** Nothing fits if nothing does from block `it` on. */
  lemma NoneFrom(s: seq<MemoryBlock>, it: nat, start: nat, end: nat, size: nat, align: nat)
    requires Canonical(s) && it < |s| && size > 0 && align > 0 && NoFitBefore(s, it, start, end, size, align)
    requires forall a :: a >= s[it].offset && a >= start && Rem(a, align) == 0 ==> a + size >= 0x1_0000_0000 || a + size > end
    ensures IsFirstFit(s, NoFit, start, end, size, align) && NoFitBefore(s, it + 1, start, end, size, align)
  {
    forall a ensures !Fits(s, a, start, end, size, align) {
      if Fits(s, a, start, end, size, align) {
        FitIsLater(s, it, a, start, end, size, align);
        var i := RunInOneBlock(s, a, size);
      }
    }
  }

  /** No sum wraps. */
  lemma PlainTurn(s: seq<MemoryBlock>, it: nat, aligned: nat, start: nat, end: nat, size: nat, align: nat)
    requires Canonical(s) && it < |s| && size > 0 && align > 0 && NoFitBefore(s, it, start, end, size, align)
    requires s[it].offset <= aligned && start <= aligned && aligned + size < 0x1_0000_0000 && Rem(aligned, align) == 0
    requires forall a :: a >= s[it].offset && a >= start && Rem(a, align) == 0 ==> a >= aligned
    ensures TurnRight(s, it, aligned, start, end, size, align)
  {
    hide Claimed, Free;
    ServeIsExact(s, it, aligned, size);
    if aligned + size > end {
      NoneFrom(s, it, start, end, size, align);
    } else {
      ServeOrSkip(s, it, aligned, start, end, size, align);
    }
  }

  /** The candidate plus the size wraps: nothing fits from here on, and the turn must not find anything. */
  lemma HighTurn(s: seq<MemoryBlock>, it: nat, aligned: nat, start: nat, end: nat, size: nat, align: nat)
    requires Canonical(s) && it < |s| && 0 < size < 0x1_0000_0000 && align > 0 && NoFitBefore(s, it, start, end, size, align)
    requires s[it].offset <= aligned < 0x1_0000_0000 <= aligned + size
    requires forall a :: a >= s[it].offset && a >= start && Rem(a, align) == 0 ==> a >= aligned
    requires aligned + size - 0x1_0000_0000 > end || size + (aligned - s[it].offset) < 0x1_0000_0000
    ensures TurnRight(s, it, aligned, start, end, size, align)
  {
    hide Claimed, Free;
    NoneFrom(s, it, start, end, size, align);
  }

  /** The block's own address wraps when rounded up, so no address in it or above is aligned. */
  lemma WrappedTurn(s: seq<MemoryBlock>, it: nat, start: nat, end: nat, size: nat, align: nat)
    requires Canonical(s) && it < |s| && 0 < size < 0x1_0000_0000 && AlignOk(align) && NoFitBefore(s, it, start, end, size, align)
    requires start + align <= 0x1_0000_0000 < s[it].offset + align && RangeSafe(start, end, size, align)
    ensures TurnRight(s, it, AlignAddr(start, align), start, end, size, align)
  {
    hide Claimed, Free, AlignAddr;
    var b, l := s[it], AlignAddr(start, align);
    AlignAddrIsLeast(start, align);
    LastMultiple(l, align);
    forall a | a >= b.offset && Rem(a, align) == 0 ensures a >= 0x1_0000_0000 {
      if a < 0x1_0000_0000 {
        NoMultipleAbove(a, b.offset, align);
      }
    }
    NoneFrom(s, it, start, end, size, align);
    CanonicalAt(s, it);
    assert align >= 4 by {
      if align == 3 {
        QuotRemUnique(0x1_0000_0000, 3, 0x5555_5555, 1);
      }
    }
    assert start == 0 ==> l == 0 by {
      RemOfZero(align);
    }
  }

  /** A multiple of a divisor of 2^32 below it is at least that much below. */
  lemma LastMultiple(l: nat, align: nat)
    requires AlignOk(align) && l < 0x1_0000_0000 && Rem(l, align) == 0
    ensures l + align <= 0x1_0000_0000
  {
    AlignedApart(l, 0x1_0000_0000, align);
  }

  /** The candidate the search looks at in block `it`, if it does not pass it over. */
  function Candidate(s: seq<MemoryBlock>, it: nat, start: nat, align: nat): nat
    requires it < |s| && align > 0
  {
    if AlignAddr(s[it].offset, align) < start then AlignAddr(start, align) else AlignAddr(s[it].offset, align)
  }

  lemma RangeTurn(s: seq<MemoryBlock>, it: nat, start: nat, end: nat, size: nat, align: nat)
    requires Canonical(s) && it < |s| && 0 < size < 0x1_0000_0000 && AlignOk(align) && NoFitBefore(s, it, start, end, size, align)
    requires start + align <= 0x1_0000_0000 && RangeSafe(start, end, size, align)
    requires !(AlignAddr(s[it].offset, align) < start && Trunc32(s[it].End()) < start)
    ensures TurnRight(s, it, Candidate(s, it, start, align), start, end, size, align)
  {
    hide Claimed, Free, AlignAddr, TurnRight, Rem, Quot, NoFitBefore;
    var b := s[it];
    CanonicalAt(s, it);
    AlignAddrIsLeast(b.offset, align);
    AlignAddrIsLeast(start, align);
    var first, l, aligned := AlignAddr(b.offset, align), AlignAddr(start, align), Candidate(s, it, start, align);
    if b.offset + align > 0x1_0000_0000 {
      assert start == 0 ==> l == 0 by {
        RemOfZero(align);
      }
      WrappedTurn(s, it, start, end, size, align);
    } else {
      forall a | a >= b.offset && a >= start && Rem(a, align) == 0 ensures a >= aligned {}
      if aligned + size < 0x1_0000_0000 {
        PlainTurn(s, it, aligned, start, end, size, align);
      } else {
        if first >= start && first > b.offset {
          FirstMultiple(first, align);
        }
        HighTurn(s, it, aligned, start, end, size, align);
      }
    }
  }

  lemma FirstMultiple(x: nat, align: nat)
    requires align > 0 && x > 0 && Rem(x, align) == 0
    ensures x >= align
  {
    RemOfZero(align);
    AlignedApart(0, x, align);
  }

  /** With such bounds the search is a first fit too. */
  lemma {:induction false} AllocateInRangeIsFirstFit(s: seq<MemoryBlock>, it: nat, start: nat, end: nat, size: nat, align: nat)
    requires Canonical(s) && it <= |s| && 0 < size < 0x1_0000_0000 && AlignOk(align) && start < 0x1_0000_0000
    requires RangeSafe(start, end, size, align) && NoFitBefore(s, it, start, end, size, align)
    ensures IsFirstFit(s, AllocateInRange(s, it, start, end, size, align), start, end, size, align)
    decreases |s| - it
  {
    hide Claimed, Free, AlignAddr, Rem, Quot, RangeSafe, Serve;
    if it == |s| {
      AllSearched(s, start, end, size, align);
    } else if AlignAddr(s[it].offset, align) < start && Trunc32(s[it].End()) < start {
      CanonicalAt(s, it);
      AllocateInRangeIsFirstFit(s, it + 1, start, end, size, align);
    } else if start + align > 0x1_0000_0000 {
      StartTooHigh(s, it, start, end, size, align);
    } else {
      RangeTurn(s, it, start, end, size, align);
      if NoFitBefore(s, it + 1, start, end, size, align) {
        AllocateInRangeIsFirstFit(s, it + 1, start, end, size, align);
      }
    }
  }

  lemma AllSearched(s: seq<MemoryBlock>, start: nat, end: nat, size: nat, align: nat)
    requires Canonical(s) && size > 0 && align > 0 && NoFitBefore(s, |s|, start, end, size, align)
    ensures IsFirstFit(s, NoFit, start, end, size, align)
  {
    forall a ensures !Fits(s, a, start, end, size, align) {
      if Fits(s, a, start, end, size, align) {
        var i := RunInOneBlock(s, a, size);
      }
    }
  }

  /** No aligned address is as high as `start`: nothing fits, and the size is too much for `end`. */
  lemma StartTooHigh(s: seq<MemoryBlock>, it: nat, start: nat, end: nat, size: nat, align: nat)
    requires Canonical(s) && it < |s| && 0 < size < 0x1_0000_0000 && AlignOk(align) && start < 0x1_0000_0000
    requires start + align > 0x1_0000_0000 && RangeSafe(start, end, size, align) && NoFitBefore(s, it, start, end, size, align)
    ensures size > end && AlignAddr(s[it].offset, align) < start && AlignAddr(start, align) == 0
    ensures IsFirstFit(s, NoFit, start, end, size, align)
  {
    hide Claimed, Free, AlignAddr;
    CanonicalAt(s, it);
    AlignAddrIsLeast(s[it].offset, align);
    AlignAddrIsLeast(start, align);
    LastMultiple(AlignAddr(s[it].offset, align), align);
    NoneFrom(s, it, start, end, size, align);
  }

  /** Allocation in a range gives the first fit for every free list exactly when the bounds are safe. */
  lemma AllocateInRangeExactIff(start: nat, end: nat, size: nat, align: nat)
    requires start < 0x1_0000_0000 && end < 0x1_0000_0000 && 0 < size < 0x1_0000_0000 && AlignOk(align)
    ensures (forall s :: Canonical(s) ==>
               IsFirstFit(s, AllocateInRange(s, 0, start, end, size, align), start, end, size, align))
       <==> RangeSafe(start, end, size, align)
  {
    if RangeSafe(start, end, size, align) {
      forall s | Canonical(s) ensures IsFirstFit(s, AllocateInRange(s, 0, start, end, size, align), start, end, size, align) {
        AllocateInRangeIsFirstFit(s, 0, start, end, size, align);
      }
    } else {
      var b := HarmfulBlock(start, end, size, align);
      assert Canonical([b]);
      HarmDone(b, start, end, size, align);
    }
  }

  /** A free list of one block that shows the harm. */
  function HarmfulBlock(start: nat, end: nat, size: nat, align: nat): MemoryBlock
    requires AlignOk(align) && start < 0x1_0000_0000 && size < 0x1_0000_0000
  {
    var l := AlignAddr(start, align);
    if start + align > 0x1_0000_0000 then MemoryBlock(0, 0xFFFF_FFFF)
    else if align >= 4 && 0x1_0000_0000 - align < l + size <= end then MemoryBlock(0x1_0000_0001 - align, align - 2)
    else if start > 0 && 0 <= l + size - 0x1_0000_0000 <= end then MemoryBlock(0, 0xFFFF_FFFF)
    else
      var first := if l > align then l else align;
      MemoryBlock(if first + size >= 0x1_0000_0000 then first + size - 0x1_0000_0000 else 0, 1)
  }

  lemma HarmDone(b: MemoryBlock, start: nat, end: nat, size: nat, align: nat)
    requires start < 0x1_0000_0000 && end < 0x1_0000_0000 && 0 < size < 0x1_0000_0000 && AlignOk(align)
    requires !RangeSafe(start, end, size, align) && b == HarmfulBlock(start, end, size, align)
    ensures Canonical([b]) && !IsFirstFit([b], AllocateInRange([b], 0, start, end, size, align), start, end, size, align)
  {
    hide Claimed, AlignAddr, IsFirstFit, AllocateInRange, Rem, Quot;
    var l := AlignAddr(start, align);
    AlignAddrIsLeast(start, align);
    if start + align > 0x1_0000_0000 {
      AlignZero(align);
      Harm(b, start, 0, start, end, size, align);
    } else {
      LastMultiple(l, align);
      if align >= 4 && 0x1_0000_0000 - align < l + size <= end {
        AlignAddrIsLeast(b.offset, align);
        assert start == 0 ==> l == 0 by {
          AlignZero(align);
        }
        Harm(b, start, l, l, end, size, align);
      } else if start > 0 && 0 <= l + size - 0x1_0000_0000 <= end {
        AlignZero(align);
        Harm(b, start, l, 0xFFFF_FFFF, end, size, align);
      } else {
        PadHarm(b, start, end, size, align);
      }
    }
  }

  lemma AlignZero(align: nat)
    requires AlignOk(align)
    ensures AlignAddr(0, align) == 0
  {
    AlignAddrIsLeast(0, align);
    RemOfZero(align);
  }

  /** The block serves `aligned`, although byte `x` of what it serves is not free or below `start`. */
  lemma Harm(b: MemoryBlock, start: nat, aligned: nat, x: nat, end: nat, size: nat, align: nat)
    requires align > 0 && b.length > 0 && b.End() < 0x1_0000_0000 && size > 0 && aligned == Candidate([b], 0, start, align)
    requires AlignAddr(b.offset, align) < start ==> b.End() >= start
    requires Trunc32(aligned + size) <= end && b.length >= Trunc32(size + Trunc32(aligned - b.offset))
    requires aligned < start || (aligned <= x < aligned + size && !(b.offset <= x < b.End()))
    ensures Canonical([b]) && !IsFirstFit([b], AllocateInRange([b], 0, start, end, size, align), start, end, size, align)
  {
    hide Claimed, AlignAddr, Rem, Quot, Trunc32;
    var r := AllocateInRange([b], 0, start, end, size, align);
    assert r.Fit? && r.address == aligned;
    FreeOne(b);
    assert aligned <= x < aligned + size ==> In(x, aligned, size);
  }

  lemma PadHarm(b: MemoryBlock, start: nat, end: nat, size: nat, align: nat)
    requires start + align <= 0x1_0000_0000 && 0 < size < 0x1_0000_0000 && AlignOk(align) && size + align > 0x1_0000_0000
    requires var first := if AlignAddr(start, align) > align then AlignAddr(start, align) else align;
      first + size - 0x1_0000_0000 <= end && b == MemoryBlock(first + size - 0x1_0000_0000, 1)
    ensures Canonical([b]) && !IsFirstFit([b], AllocateInRange([b], 0, start, end, size, align), start, end, size, align)
  {
    hide Claimed, AlignAddr, IsFirstFit, AllocateInRange, Rem, Quot;
    var first := if AlignAddr(start, align) > align then AlignAddr(start, align) else align;
    AlignAddrIsLeast(start, align);
    QuotRemUnique(align, align, 1, 0);
    LastMultiple(first, align);
    AlignAddrIsLeast(b.offset, align);
    if AlignAddr(b.offset, align) < first {
      AlignedApart(AlignAddr(b.offset, align), first, align);
    }
    Harm(b, start, first, first, end, size, align);
  }

  ghost predicate NoneFits(s: seq<MemoryBlock>, start: nat, end: nat, size: nat, align: nat)
    requires align > 0
  {
    forall a :: !Fits(s, a, start, end, size, align)
  }

  /** The answer 0 tells that nothing fits exactly when the first fit is not at 0, where it would be 0 too. That byte 0
      is not free, or not in the range, is enough. */
  lemma ZeroMeansNone(s: seq<MemoryBlock>, r: Claim, start: nat, end: nat, size: nat, align: nat)
    requires align > 0 && size > 0 && IsFirstFit(s, r, start, end, size, align)
    ensures (Answer(r) == 0 <==> NoneFits(s, start, end, size, align)) <==> !Fits(s, 0, start, end, size, align)
    ensures !Free(s, 0) || start > 0 ==> !Fits(s, 0, start, end, size, align)
  {
    assert In(0, 0, size);
  }

  lemma AllocateAnswer(s: seq<MemoryBlock>, size: nat, align: nat)
    requires align > 0
    ensures Canonical(s) && 0 < size && AlignOk(align) && size + align <= 0x1_0000_0000 ==>
      ((Answer(Allocate(s, 0, size, align)) == 0 <==> NoneFits(s, 0, 0x1_0000_0000, size, align))
       <==> !Fits(s, 0, 0, 0x1_0000_0000, size, align))
  {
    if Canonical(s) && 0 < size && AlignOk(align) && size + align <= 0x1_0000_0000 {
      AllocateIsFirstFit(s, 0, size, align);
      ZeroMeansNone(s, Allocate(s, 0, size, align), 0, 0x1_0000_0000, size, align);
    }
  }

  lemma AllocateInRangeAnswer(s: seq<MemoryBlock>, start: nat, end: nat, size: nat, align: nat)
    requires align > 0
    ensures Canonical(s) && start < 0x1_0000_0000 && 0 < size < 0x1_0000_0000 && AlignOk(align)
            && RangeSafe(start, end, size, align) ==>
      ((Answer(AllocateInRange(s, 0, start, end, size, align)) == 0 <==> NoneFits(s, start, end, size, align))
       <==> !Fits(s, 0, start, end, size, align))
  {
    hide RangeSafe;
    if Canonical(s) && start < 0x1_0000_0000 && 0 < size < 0x1_0000_0000 && AlignOk(align)
       && RangeSafe(start, end, size, align) {
      AllocateInRangeIsFirstFit(s, 0, start, end, size, align);
      ZeroMeansNone(s, AllocateInRange(s, 0, start, end, size, align), start, end, size, align);
    }
  }

  /** Freeing what was just claimed restores the very same list. */
  lemma FreeUndoesClaim(s: seq<MemoryBlock>, t: seq<MemoryBlock>, address: nat, size: nat)
    requires Canonical(s) && Canonical(t) && size > 0 && address + size < 0x1_0000_0000
    requires RemovesExactly(s, t, address, size) && forall a :: In(a, address, size) ==> Free(s, a)
    ensures Freeable(t, address, size) && Freed(t, 0, address, size) == s
  {
    FreedIsExact(t, 0, address, size);
    CanonicalUnique(Freed(t, 0, address, size), s);
  }

  // ---- the number of free bytes (physical_manager.cpp:253-263) ----

  function Total(s: seq<MemoryBlock>): nat {
    if s == [] then 0 else Total(s[..|s| - 1]) + s[|s| - 1].length
  }

  function Range(lo: nat, hi: nat): set<int>
    decreases hi
  {
    if lo >= hi then {} else Range(lo, hi - 1) + {hi - 1}
  }

  lemma {:induction false} RangeSize(lo: nat, hi: nat)
    requires lo <= hi
    ensures |Range(lo, hi)| == hi - lo
    ensures forall a :: a in Range(lo, hi) <==> lo <= a < hi
    decreases hi
  {
    if lo < hi {
      RangeSize(lo, hi - 1);
    }
  }

  ghost function FreeSet(s: seq<MemoryBlock>): set<int> {
    set a: int | 0 <= a < 0x1_0000_0000 && Free(s, a)
  }

  /** The lengths of a canonical list add up to the number of free bytes. */
  lemma {:induction false} TotalIsFreeBytes(s: seq<MemoryBlock>)
    requires Canonical(s)
    ensures Total(s) == |FreeSet(s)| < 0x1_0000_0000
  {
    TotalBelowEnd(s);
    if s == [] {
      assert FreeSet(s) == {};
    } else {
      var n := |s| - 1;
      TotalIsFreeBytes(s[..n]);
      hide FreeSet;
      RangeSize(s[n].offset, s[n].End());
      LastBlockFree(s);
    }
  }

  lemma LastBlockFree(s: seq<MemoryBlock>)
    requires Canonical(s) && s != []
    ensures var n := |s| - 1;
      FreeSet(s) == FreeSet(s[..n]) + Range(s[n].offset, s[n].End()) && FreeSet(s[..n]) !! Range(s[n].offset, s[n].End())
  {
    var n := |s| - 1;
    assert s == s[..n] + [s[n]];
    FreeOne(s[n]);
    RangeSize(s[n].offset, s[n].End());
    forall a ensures Free(s, a) <==> Free(s[..n], a) || s[n].offset <= a < s[n].End() {
      FreeConcat(s[..n], [s[n]], a);
    }
    forall a ensures !(Free(s[..n], a) && a >= s[n].offset) {
    }
  }

  lemma NoTotal(s: seq<MemoryBlock>)
    ensures Total(s[..0]) == 0
  {
  }

  /** One more block: the sum of the lengths so far does not wrap. */
  lemma NextTotal(s: seq<MemoryBlock>, i: nat)
    requires Canonical(s) && i < |s|
    ensures Total(s[..i + 1]) == Total(s[..i]) + s[i].length < 0x1_0000_0000
  {
    TotalBelowEnd(s[..i + 1]);
    assert s[..i + 1][..i] == s[..i];
  }

  lemma {:induction false} TotalBelowEnd(s: seq<MemoryBlock>)
    requires Canonical(s)
    ensures Total(s) < 0x1_0000_0000 && (s != [] ==> Total(s) <= s[|s| - 1].End())
  {
    if s != [] {
      TotalBelowEnd(s[..|s| - 1]);
    }
  }

  /** Claiming free bytes takes exactly their number off the total. */
  lemma ClaimedSet(s: seq<MemoryBlock>, t: seq<MemoryBlock>, address: nat, size: nat)
    requires RemovesExactly(s, t, address, size)
    requires address + size <= 0x1_0000_0000 && forall a :: In(a, address, size) ==> Free(s, a)
    ensures FreeSet(s) == FreeSet(t) + Range(address, address + size) && FreeSet(t) !! Range(address, address + size)
  {
    hide Free, Range;
    RangeSize(address, address + size);
  }

  lemma ClaimTotal(s: seq<MemoryBlock>, t: seq<MemoryBlock>, address: nat, size: nat)
    requires Canonical(s) && Canonical(t) && RemovesExactly(s, t, address, size)
    requires address + size <= 0x1_0000_0000 && forall a :: In(a, address, size) ==> Free(s, a)
    ensures Total(t) + size == Total(s)
  {
    hide Total, Canonical, Range, FreeSet, RemovesExactly, Free;
    TotalIsFreeBytes(s);
    TotalIsFreeBytes(t);
    RangeSize(address, address + size);
    ClaimedSet(s, t, address, size);
  }
}

module PhysicalMemory {
  import opened Bytes
  import opened FreeList

  const MAX_NUM_MEMORY_BLOCKS: nat := 128

  class BlockList {
    const blocks: array<MemoryBlock>
    var numBlocks: nat

    ghost predicate Valid()
      reads this
    {
      blocks.Length == MAX_NUM_MEMORY_BLOCKS && numBlocks <= MAX_NUM_MEMORY_BLOCKS
    }

    ghost function List(): (s: seq<MemoryBlock>)
      requires Valid()
      reads this, blocks
      ensures |s| == numBlocks
    {
      blocks[..numBlocks]
    }

    constructor ()
      ensures Valid() && fresh(blocks) && List() == []
    {
      blocks := new MemoryBlock[MAX_NUM_MEMORY_BLOCKS](_ => MemoryBlock(0, 0));
      numBlocks := 0;
    }

    /** Close the gap at `it` by moving the later blocks down. */
    method Erase(it: nat)
      requires Valid() && it < numBlocks
      modifies this, blocks
      ensures Valid() && List() == old(List()[..it] + List()[it + 1..])
    {
      if it < numBlocks - 1 {
        for k := it to numBlocks - 1
          invariant numBlocks == old(numBlocks)
          invariant forall j :: 0 <= j < it ==> blocks[j] == old(blocks[j])
          invariant forall j :: it <= j < k ==> blocks[j] == old(blocks[j + 1])
          invariant forall j :: k <= j < numBlocks ==> blocks[j] == old(blocks[j])
        {
          blocks[k] := blocks[k + 1];
        }
      }
      numBlocks := numBlocks - 1;
    }

    /** Open a gap at `it` by moving the later blocks up, and put `b` there. */
    method Emplace(it: nat, b: MemoryBlock)
      requires Valid() && it <= numBlocks < MAX_NUM_MEMORY_BLOCKS
      modifies this, blocks
      ensures Valid() && List() == old(List()[..it] + [b] + List()[it..])
    {
      ghost var s := List();
      var k := numBlocks;
      while k > it
        invariant numBlocks == old(numBlocks)
        invariant it <= k <= numBlocks
        invariant forall j :: 0 <= j < k ==> blocks[j] == s[j]
        invariant forall j :: k < j <= numBlocks ==> blocks[j] == s[j - 1]
      {
        blocks[k] := blocks[k - 1];
        k := k - 1;
      }
      blocks[it] := b;
      numBlocks := numBlocks + 1;
    }

    /** Take `size` bytes `offset` bytes into block `it`. The iterator comes back on the last piece left of the block,
        or one step before its place when nothing is left. */
    method ClaimFromBlock(it: nat, offset: nat, size: nat) returns (next: int)
      requires Valid() && it < numBlocks
      requires numBlocks < MAX_NUM_MEMORY_BLOCKS || |Rest(List()[it], offset, size)| <= 1
      modifies this, blocks
      ensures Valid() && List() == Claimed(old(List()), it, offset, size)
      ensures next == it + |Rest(old(List())[it], offset, size)| - 1
    {
      ghost var s := List();
      var b := blocks[it];
      var length := Trunc32(b.length - Trunc32(size + offset));
      next := it;
      if length == 0 {
        if offset > 0 {
          blocks[it] := MemoryBlock(b.offset, offset);
          assert List() == s[..it] + [MemoryBlock(b.offset, offset)] + s[it + 1..];
        } else {
          Erase(it);
          next := it - 1;
          assert List() == s[..it] + [] + s[it + 1..];
        }
      } else {
        var upper := MemoryBlock(Trunc32(b.offset + Trunc32(size + offset)), length);
        if offset > 0 {
          Emplace(it, MemoryBlock(b.offset, offset));
          next := it + 1;
        }
        blocks[next] := upper;
        assert List() == s[..it] + ((if offset > 0 then [MemoryBlock(b.offset, offset)] else []) + [upper]) + s[it + 1..];
      }
    }

    /** One turn of the reserve loop. */
    method ReserveAt(it: nat, address: nat, size: nat) returns (done: bool, next: nat, from: nat, left: nat)
      requires Valid() && it < numBlocks && address < 0x1_0000_0000 && size < 0x1_0000_0000
      requires numBlocks < MAX_NUM_MEMORY_BLOCKS
      modifies this, blocks
      ensures Valid() && from < 0x1_0000_0000 && left < 0x1_0000_0000
      ensures ReserveTurn(old(List()), it, address, size) == if done then Done(List()) else Next(List(), next, from, left)
    {
      hide Claimed, Rest, Trunc32;
      next, from, left := it, address, size;
      var b := blocks[it];
      if b.offset > Trunc32(from + left) {
        return true, next, from, left;
      }
      if b.offset > from {
        left := Trunc32(left - (b.offset - from));
        from := b.offset;
      }
      var padding := from - b.offset;
      var available := Trunc32(b.length - padding);
      var claimed := if available < left then available else left;
      var last: int := it;
      if b.length >= Trunc32(claimed + padding) {
        last := ClaimFromBlock(it, padding, claimed);
        from := Trunc32(from + claimed);
        left := left - claimed;
      }
      done := left == 0;
      next := last + 1;
    }

    /** Take a range out of the list. Each claim may split a block: one spare slot is enough for a range that does not
        wrap, as many as there are blocks for one that does. */
    method Reserve(address: nat, size: nat)
      requires Valid() && Canonical(List()) && address < 0x1_0000_0000 && size < 0x1_0000_0000
      requires numBlocks < MAX_NUM_MEMORY_BLOCKS
      requires address + size < 0x1_0000_0000 || 2 * numBlocks <= MAX_NUM_MEMORY_BLOCKS
      modifies this, blocks
      ensures Valid() && List() == Reserved(old(List()), 0, address, size)
    {
      hide ReserveTurn, Canonical;
      var from, left, it := address, size, 0;
      while it != numBlocks
        invariant Valid() && 0 <= it <= numBlocks && from < 0x1_0000_0000 && left < 0x1_0000_0000
        invariant Reserved(List(), it, from, left) == Reserved(old(List()), 0, address, size)
        invariant 2 * numBlocks - it <= 2 * old(numBlocks)
        invariant address + size < 0x1_0000_0000 ==>
          from + left < 0x1_0000_0000 && Canonical(List()) && numBlocks <= old(numBlocks)
        decreases numBlocks - it
      {
        if address + size < 0x1_0000_0000 {
          TurnKeeps(List(), it, from, left);
        }
        var done;
        done, it, from, left := ReserveAt(it, from, left);
        if done {
          return;
        }
      }
    }

    /** Give a range back. */
    method FreeRange(address: nat, size: nat)
      requires Valid() && Canonical(List()) && Freeable(List(), address, size)
      requires numBlocks < MAX_NUM_MEMORY_BLOCKS
      modifies this, blocks
      ensures Valid() && List() == Freed(old(List()), 0, address, size)
    {
      hide Canonical, Freeable;
      var it := 0;
      while it != numBlocks
        invariant 0 <= it <= numBlocks == old(numBlocks) && List() == old(List())
        invariant Freed(List(), it, address, size) == Freed(old(List()), 0, address, size)
      {
        if blocks[it].End() >= address {
          MergeInto(it, address, size);
          return;
        }
        it := it + 1;
      }
      blocks[numBlocks] := MemoryBlock(address, size);
      numBlocks := numBlocks + 1;
      assert List() == Freed(old(List()), it, address, size);
    }

    /** Where block `it` is the first that does not end before the range: join it, or go in before it. */
    method MergeInto(it: nat, address: nat, size: nat)
      requires Valid() && it < numBlocks < MAX_NUM_MEMORY_BLOCKS && List()[it].End() >= address
      modifies this, blocks
      ensures Valid() && List() == Freed(old(List()), it, address, size)
    {
      var b := blocks[it];
      if b.End() == address {
        JoinBelow(it, address, size);
      } else if b.offset == address + size {
        blocks[it] := MemoryBlock(address, b.length + size);
        assert List() == Freed(old(List()), it, address, size);
      } else {
        Emplace(it, MemoryBlock(address, size));
      }
    }

    /** Block `it` ends where the range begins: it grows, and takes in the block after it if that begins where the range
        ends. */
    method JoinBelow(it: nat, address: nat, size: nat)
      requires Valid() && it < numBlocks && List()[it].End() == address
      modifies this, blocks
      ensures Valid() && List() == Freed(old(List()), it, address, size)
    {
      hide Freed;
      ghost var s := List();
      FreedBelow(s, it, address, size);
      var b := blocks[it];
      var next := it + 1;
      if next < numBlocks && blocks[next].offset == address + size {
        blocks[it] := MemoryBlock(b.offset, b.length + size + blocks[next].length);
        ghost var u := List();
        Erase(next);
        assert u[..next] == s[..it] + [u[it]] && u[next + 1..] == s[it + 2..];
      } else {
        blocks[it] := MemoryBlock(b.offset, b.length + size);
        assert List() == s[..it] + [List()[it]] + s[it + 1..];
      }
    }

    /** First fit; 0 when there is none. */
    method AllocateBlock(size: nat, align: nat) returns (address: nat)
      requires Valid() && align > 0 && numBlocks < MAX_NUM_MEMORY_BLOCKS
      modifies this, blocks
      ensures Valid()
      ensures address == Answer(Allocate(old(List()), 0, size, align))
      ensures match Allocate(old(List()), 0, size, align)
        case NoFit => List() == old(List())
        case Fit(_, t) => List() == t
      ensures Canonical(old(List())) && 0 < size && AlignOk(align) && size + align <= 0x1_0000_0000 ==>
        ((address == 0 <==> NoneFits(old(List()), 0, 0x1_0000_0000, size, align))
         <==> !Fits(old(List()), 0, 0, 0x1_0000_0000, size, align))
    {
      hide Claimed, Rest, AlignAddr, Trunc32, Fits, NoneFits, Canonical, AlignOk;
      AllocateAnswer(List(), size, align);
      for it := 0 to numBlocks
        invariant Valid() && numBlocks == old(numBlocks) && List() == old(List())
        invariant Allocate(List(), it, size, align) == Allocate(old(List()), 0, size, align)
      {
        var aligned := AlignAddr(blocks[it].offset, align);
        var padding := Trunc32(aligned - blocks[it].offset);
        if blocks[it].length >= Trunc32(size + padding) {
          var _ := ClaimFromBlock(it, padding, size);
          return aligned;
        }
      }
      return 0;
    }

    /** First fit within `[start, end)`; 0 when there is none. */
    method AllocateBlockInRange(start: nat, end: nat, size: nat, align: nat) returns (address: nat)
      requires Valid() && align > 0 && numBlocks < MAX_NUM_MEMORY_BLOCKS
      modifies this, blocks
      ensures Valid()
      ensures address == Answer(AllocateInRange(old(List()), 0, start, end, size, align))
      ensures match AllocateInRange(old(List()), 0, start, end, size, align)
        case NoFit => List() == old(List())
        case Fit(_, t) => List() == t
      ensures Canonical(old(List())) && start < 0x1_0000_0000 && 0 < size < 0x1_0000_0000 && AlignOk(align)
              && RangeSafe(start, end, size, align) ==>
        ((address == 0 <==> NoneFits(old(List()), start, end, size, align)) <==> !Fits(old(List()), 0, start, end, size, align))
    {
      hide Claimed, Rest, AlignAddr, Trunc32, Fits, NoneFits, Canonical, AlignOk, RangeSafe;
      AllocateInRangeAnswer(List(), start, end, size, align);
      ghost var s := List();
      for it := 0 to numBlocks
        invariant Valid() && numBlocks == old(numBlocks) && List() == s
        invariant AllocateInRange(s, it, start, end, size, align) == AllocateInRange(s, 0, start, end, size, align)
      {
        var aligned := AlignAddr(blocks[it].offset, align);
        if aligned < start {
          if Trunc32(blocks[it].End()) < start {
            continue;
          }
          aligned := AlignAddr(start, align);
        }
        if Trunc32(aligned + size) > end {
          return 0;
        }
        var padding := Trunc32(aligned - blocks[it].offset);
        if blocks[it].length >= Trunc32(size + padding) {
          var _ := ClaimFromBlock(it, padding, size);
          return aligned;
        }
      }
      return 0;
    }

    /** The number of free bytes; the sum does not wrap. */
    method NumBytesFree() returns (sum: nat)
      requires Valid() && Canonical(List())
      ensures sum == Total(List()) == |FreeSet(List())|
    {
      hide FreeSet, Trunc32, Total, Canonical;
      ghost var s := List();
      TotalIsFreeBytes(s);
      NoTotal(s);
      sum := 0;
      for i := 0 to numBlocks
        invariant sum == Total(s[..i])
      {
        NextTotal(s, i);
        sum := Trunc32(sum + blocks[i].length);
      }
      assert s[..numBlocks] == s;
    }
  }
}
