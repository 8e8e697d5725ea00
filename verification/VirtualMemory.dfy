/** Demand paging (kernel/memorymanager.cpp) over the physical free list: a two-level table whose map-on-access pages
    get a frame when they are first touched.

    `Paging` says who owns which frame and what claiming and releasing one does; `VirtualMemory` is the address space. */
module Paging {
  import opened Bytes
  import opened FreeList

  const PAGE_SIZE: nat := 4096
  const TABLE_SIZE: nat := 1024
  const SELF_MAP: nat := 1023          // the last directory slot maps the directory itself
  const KERNEL_FIRST: nat := 896       // get_page_dir_index(KERNEL_SPLIT)

  /** The flag bits that mean something here. */
  datatype Flags = Flags(present: bool, rw: bool, user: bool, mapOnAccess: bool, reserved: bool) {
    /** `flags & PAGE_ALLOCATED` */
    predicate Allocated() { present || reserved }
  }

  /** The bits of an entry's word: PAGE_PRESENT, PAGE_RW, PAGE_USER, PAGE_MAP_ON_ACCESS, PAGE_RESERVED. */
  function FlagsOf(word: bv32): Flags {
    Flags(word & 0x1 != 0, word & 0x2 != 0, word & 0x4 != 0, word & 0x400 != 0, word & 0x800 != 0)
  }

  /** An entry is allocated when one of the two bits of PAGE_ALLOCATED is set. */
  lemma AllocatedBits(word: bv32)
    ensures FlagsOf(word).Allocated() <==> word & 0x801 != 0
  {
  }

  /** The words `memmanager_handle_page_fault` writes for a map-on-access entry `word` and a frame: the flags it had, present,
      not reserved, not map-on-access, and at first writable. */
  lemma FaultBits(word: bv32, frame: bv32)
    requires frame & 0xFFF == 0
    ensures var flags := word & (0xFFF & !0xC00); var value := frame | flags | 0x1;
      && value & !0xFFF == frame
      && FlagsOf(value) == FlagsOf(word).(present := true, reserved := false, mapOnAccess := false)
      && FlagsOf(value | 0x2) == FlagsOf(value).(rw := true) && (flags & 0x2 != 0 <==> FlagsOf(word).rw)
  {
  }

  /** The word of a new page table. */
  lemma TableBits(request: bv32, frame: bv32)
    requires frame & 0xFFF == 0 && request & !0xFFF == 0
    ensures var value := frame | 0x1 | 0x2 | (request & !0xC00);
      value & !0xFFF == frame && FlagsOf(value) == Flags(true, true, FlagsOf(request).user, false, false)
  {
  }

  const NONE := Flags(false, false, false, false, false)

  /** An entry of a page table or directory: a page-aligned physical address and flags. */
  datatype Entry = Entry(address: nat, flags: Flags)

  const EMPTY := Entry(0, NONE)

  /** `pt[v]` is the entry of page number `v`, meaningful where the table of `v` is present. */
  datatype Space = Space(free: seq<MemoryBlock>, pd: seq<Entry>, pt: seq<Entry>)

  /** A frame holds a page table or backs a page. */
  datatype Owner = Table(i: nat) | Page(v: nat)

  function TableOf(v: nat): nat { v / 1024 }

  ghost predicate Sizes(s: Space) {
    |s.pd| == TABLE_SIZE && |s.pt| == TABLE_SIZE * TABLE_SIZE
  }

  /** Below the self-map slot, in a table that is present. */
  predicate Mapped(pd: seq<Entry>, v: nat)
    requires |pd| == TABLE_SIZE
  {
    v < SELF_MAP * TABLE_SIZE && pd[TableOf(v)].flags.present
  }

  ghost predicate Uses(s: Space, o: Owner, f: nat)
    requires Sizes(s)
  {
    match o
    case Table(i) => i < TABLE_SIZE && s.pd[i].flags.present && s.pd[i].address == f
    case Page(v) => Mapped(s.pd, v) && s.pt[v].flags.present && s.pt[v].address == f
  }

  ghost predicate Owned(s: Space, x: int)
    requires Sizes(s)
  {
    exists o, f :: Uses(s, o, f) && In(x, f, PAGE_SIZE)
  }

  /** A frame in use is a page of its own, none of it free. */
  ghost predicate FrameOk(free: seq<MemoryBlock>, f: nat) {
    && Rem(f, PAGE_SIZE) == 0 && 0 < f && f + PAGE_SIZE < 0x1_0000_0000
    && forall x :: In(x, f, PAGE_SIZE) ==> !Free(free, x)
  }

  /** No frame has two owners or is owned and free, and `arena` is exactly the bytes that are owned or free. */
  ghost predicate Frames(s: Space, arena: set<int>) {
    && Sizes(s) && Canonical(s.free) && !Free(s.free, 0)
    && (forall o, f :: Uses(s, o, f) ==> FrameOk(s.free, f))
    && (forall o, p, f :: Uses(s, o, f) && Uses(s, p, f) ==> o == p)
    && (forall x :: x in arena <==> Free(s.free, x) || Owned(s, x))
  }

  /** Map-on-access pages are reserved and not present. */
  ghost predicate Lazy(s: Space)
    requires Sizes(s)
  {
    && (forall i :: 0 <= i < TABLE_SIZE ==> !s.pd[i].flags.mapOnAccess)
    && forall v :: 0 <= v < SELF_MAP * TABLE_SIZE && Mapped(s.pd, v) && s.pt[v].flags.mapOnAccess ==>
      s.pt[v].flags.reserved && !s.pt[v].flags.present
  }

  ghost predicate Inv(s: Space, arena: set<int>) {
    Frames(s, arena) && Lazy(s)
  }

  /** Two frames in use that share a byte are the same frame. */
  lemma FrameUnique(f: nat, h: nat, x: int)
    requires Rem(f, PAGE_SIZE) == 0 && Rem(h, PAGE_SIZE) == 0 && In(x, f, PAGE_SIZE) && In(x, h, PAGE_SIZE)
    ensures f == h
  {
  }

  /** The bytes of one page. */
  ghost function PageBytes(f: nat): (r: set<int>)
    ensures |r| == PAGE_SIZE && forall x :: x in r <==> In(x, f, PAGE_SIZE)
  {
    RangeSize(f, f + PAGE_SIZE);
    Range(f, f + PAGE_SIZE)
  }

  /** A page taken out of the free list belongs to nobody: it leaves the arena. */
  lemma Withdraw(s: Space, free: seq<MemoryBlock>, f: nat, arena: set<int>)
    requires Frames(s, arena) && Canonical(free) && RemovesExactly(s.free, free, f, PAGE_SIZE)
    requires Rem(f, PAGE_SIZE) == 0 && forall x :: In(x, f, PAGE_SIZE) ==> Free(s.free, x)
    ensures Frames(s.(free := free), arena - PageBytes(f)) && FrameOk(free, f) && PageBytes(f) <= arena
  {
    var t := s.(free := free);
    assert In(f, f, PAGE_SIZE) && In(f + PAGE_SIZE - 1, f, PAGE_SIZE);
    assert Free(s.free, f + PAGE_SIZE - 1);
    forall o, h ensures Uses(t, o, h) <==> Uses(s, o, h) {}
    forall o, h | Uses(t, o, h) ensures FrameOk(t.free, h) {
      assert FrameOk(s.free, h);
    }
    SameOwners(s, t);
    forall x | Owned(s, x) ensures !Free(s.free, x) {
      OwnedNotFree(s, arena, x);
    }
    forall x | x in PageBytes(f) ensures x in arena {
      assert Free(s.free, x);
    }
  }

  lemma OwnedNotFree(s: Space, arena: set<int>, x: int)
    requires Frames(s, arena) && Owned(s, x)
    ensures !Free(s.free, x)
  {
  }

  /** The reverse: a page that belongs to nobody is put back into the list. */
  lemma Deposit(s: Space, free: seq<MemoryBlock>, f: nat, arena: set<int>)
    requires Frames(s, arena) && Canonical(free) && AddsExactly(s.free, free, f, PAGE_SIZE)
    requires FrameOk(s.free, f) && PageBytes(f) !! arena
    ensures Frames(s.(free := free), arena + PageBytes(f))
  {
    var t := s.(free := free);
    forall o, h ensures Uses(t, o, h) <==> Uses(s, o, h) {}
    SameOwners(s, t);
    forall o, h | Uses(t, o, h) ensures FrameOk(t.free, h) {
      assert FrameOk(s.free, h);
      forall x | In(x, h, PAGE_SIZE) ensures !Free(t.free, x) {
        assert Owned(s, x);
        assert x !in PageBytes(f);
      }
    }
  }

  /** A page that belongs to nobody is given to an owner that had none. */
  lemma Attach(s: Space, t: Space, o: Owner, f: nat, arena: set<int>)
    requires Frames(s, arena) && Sizes(t) && t.free == s.free
    requires FrameOk(s.free, f) && PageBytes(f) !! arena
    requires forall p, h :: Uses(t, p, h) <==> Uses(s, p, h) || (p == o && h == f)
    requires forall h :: !Uses(s, o, h)
    ensures Frames(t, arena + PageBytes(f))
  {
    assert In(f, f, PAGE_SIZE) && f in PageBytes(f);
    forall p ensures !Uses(s, p, f) {
      assert Uses(s, p, f) ==> Owned(s, f);
    }
    forall x ensures Owned(t, x) <==> Owned(s, x) || In(x, f, PAGE_SIZE) {
      if Owned(s, x) {
        var p, h :| Uses(s, p, h) && In(x, h, PAGE_SIZE);
        assert Uses(t, p, h);
      }
      if In(x, f, PAGE_SIZE) {
        assert Uses(t, o, f);
      }
      if Owned(t, x) {
        var p, h :| Uses(t, p, h) && In(x, h, PAGE_SIZE);
      }
    }
  }

  /** An owner's page is taken from it. */
  lemma Detach(s: Space, t: Space, o: Owner, f: nat, arena: set<int>)
    requires Frames(s, arena) && Sizes(t) && t.free == s.free && Uses(s, o, f)
    requires forall p, h :: Uses(t, p, h) <==> Uses(s, p, h) && p != o
    ensures Frames(t, arena - PageBytes(f)) && FrameOk(t.free, f) && PageBytes(f) <= arena
  {
    assert FrameOk(s.free, f);
    forall x ensures Owned(t, x) <==> Owned(s, x) && !In(x, f, PAGE_SIZE) {
      if Owned(s, x) && !In(x, f, PAGE_SIZE) {
        var p, h :| Uses(s, p, h) && In(x, h, PAGE_SIZE);
        assert Uses(t, p, h);
      }
      if Owned(t, x) {
        var p, h :| Uses(t, p, h) && In(x, h, PAGE_SIZE);
        assert FrameOk(s.free, h) && h != f;
        if In(x, f, PAGE_SIZE) {
          FrameUnique(f, h, x);
        }
      }
    }
    forall x | x in PageBytes(f) ensures x in arena {
      assert Owned(s, x);
    }
  }

  /** A change that touches neither the list nor any frame in use. */
  lemma SameFramesKeep(s: Space, t: Space, arena: set<int>)
    requires Frames(s, arena) && Sizes(t) && t.free == s.free
    requires forall o, f :: Uses(t, o, f) <==> Uses(s, o, f)
    ensures Frames(t, arena)
  {
  }

  lemma SameOwners(s: Space, t: Space)
    requires Sizes(s) && Sizes(t)
    requires forall o, f :: Uses(t, o, f) <==> Uses(s, o, f)
    ensures forall x :: Owned(t, x) <==> Owned(s, x)
  {
  }

  // ---- conservation, counted ----

  ghost function BytesOf(frames: set<nat>): set<int> {
    set f, x | f in frames && x in PageBytes(f) :: x
  }

  /** Distinct aligned frames hold a page of bytes each. */
  lemma {:induction false} BytesOfSize(frames: set<nat>)
    requires forall f :: f in frames ==> Rem(f, PAGE_SIZE) == 0
    ensures |BytesOf(frames)| == 4096 * |frames|
  {
    hide Rem, PageBytes;
    if frames == {} {
      assert BytesOf(frames) == {};
    } else {
      var f :| f in frames;
      var rest := frames - {f};
      BytesOfSize(rest);
      assert frames == rest + {f};
      hide BytesOf;
      BytesOfOneMore(rest, f);
    }
  }

  lemma BytesOfOneMore(rest: set<nat>, f: nat)
    requires f !in rest && forall h :: h in rest + {f} ==> Rem(h, PAGE_SIZE) == 0
    ensures BytesOf(rest + {f}) == BytesOf(rest) + PageBytes(f) && BytesOf(rest) !! PageBytes(f)
  {
    hide PageBytes, Rem;
    forall x | x in BytesOf(rest) ensures x !in PageBytes(f) && x in BytesOf(rest + {f}) {
      var h :| h in rest && x in PageBytes(h);
      assert h in rest + {f};
      if x in PageBytes(f) {
        FrameUnique(f, h, x);
      }
    }
    assert f in rest + {f};
    forall x | x in BytesOf(rest + {f}) ensures x in BytesOf(rest) + PageBytes(f) {
      var h :| h in rest + {f} && x in PageBytes(h);
    }
    forall x | x in PageBytes(f) ensures x in BytesOf(rest + {f}) {}
    assert BytesOf(rest + {f}) == BytesOf(rest) + PageBytes(f);
  }

  ghost function FramesInUse(s: Space): set<nat>
    requires Sizes(s)
  {
    (set i | 0 <= i < TABLE_SIZE && s.pd[i].flags.present :: s.pd[i].address)
    + (set v | 0 <= v < SELF_MAP * TABLE_SIZE && Mapped(s.pd, v) && s.pt[v].flags.present :: s.pt[v].address)
  }

  lemma InUseMeansUsed(s: Space, f: nat)
    requires Sizes(s)
    ensures f in FramesInUse(s) <==> exists o :: Uses(s, o, f)
  {
    if f in FramesInUse(s) {
      if i :| 0 <= i < TABLE_SIZE && s.pd[i].flags.present && s.pd[i].address == f {
        assert Uses(s, Table(i), f);
      } else {
        var v :| 0 <= v < SELF_MAP * TABLE_SIZE && Mapped(s.pd, v) && s.pt[v].flags.present && s.pt[v].address == f;
        assert Uses(s, Page(v), f);
      }
    }
  }

  lemma OwnedBytes(s: Space, x: int)
    requires Sizes(s)
    ensures x in BytesOf(FramesInUse(s)) <==> Owned(s, x)
  {
    hide FramesInUse, PageBytes, Uses;
    if x in BytesOf(FramesInUse(s)) {
      var f :| f in FramesInUse(s) && x in PageBytes(f);
      InUseMeansUsed(s, f);
    }
    if Owned(s, x) {
      var o, f :| Uses(s, o, f) && In(x, f, PAGE_SIZE);
      InUseMeansUsed(s, f);
      assert x in PageBytes(f);
    }
  }

  /** Free bytes, plus a page for every table and every mapped page, always add up to the arena. */
  lemma BytesConserved(s: Space, arena: set<int>)
    requires Frames(s, arena)
    ensures Total(s.free) + 4096 * |FramesInUse(s)| == |arena|
  {
    var frames := FramesInUse(s);
    forall f | f in frames ensures Rem(f, PAGE_SIZE) == 0 {
      InUseMeansUsed(s, f);
      var o :| Uses(s, o, f);
      assert FrameOk(s.free, f);
    }
    TotalIsFreeBytes(s.free);
    BytesOfSize(frames);
    hide FramesInUse, BytesOf, Total;
    ArenaSplits(s, arena);
  }

  /** The invariant, and with it the count: free bytes, page tables and mapped pages add up to the arena. */
  ghost predicate Conserving(s: Space, arena: set<int>) {
    Inv(s, arena) && Total(s.free) + 4096 * |FramesInUse(s)| == |arena|
  }

  lemma Conserved(s: Space, arena: set<int>)
    requires Inv(s, arena)
    ensures Conserving(s, arena)
  {
    BytesConserved(s, arena);
  }

  lemma ArenaSplits(s: Space, arena: set<int>)
    requires Frames(s, arena)
    ensures arena == FreeSet(s.free) + BytesOf(FramesInUse(s)) && FreeSet(s.free) !! BytesOf(FramesInUse(s))
  {
    hide FramesInUse, BytesOf, Uses;
    var owned := BytesOf(FramesInUse(s));
    forall x ensures x in owned <==> Owned(s, x) {
      OwnedBytes(s, x);
    }
    forall x | Owned(s, x) ensures !Free(s.free, x) {
      var o, f :| Uses(s, o, f) && In(x, f, PAGE_SIZE);
      assert FrameOk(s.free, f);
    }
    forall x ensures Free(s.free, x) <==> x in FreeSet(s.free) {}
    assert arena == FreeSet(s.free) + owned;
  }

  /** Nothing but a directory mapped to itself. */
  lemma NewSpace(s: Space, blocks: seq<MemoryBlock>, directory: nat)
    requires Canonical(blocks) && !Free(blocks, 0) && FrameOk(blocks, directory)
    requires Sizes(s) && s.free == blocks && s.pd[SELF_MAP] == Entry(directory, Flags(true, true, false, false, false))
    requires forall i :: 0 <= i < SELF_MAP ==> s.pd[i] == EMPTY
    requires forall v :: 0 <= v < |s.pt| ==> s.pt[v] == EMPTY
    ensures Inv(s, FreeSet(blocks) + PageBytes(directory))
  {
    hide FrameOk, PageBytes, Frames, Free, Canonical;
    var bare := s.(pd := s.pd[SELF_MAP := EMPTY]);
    NothingUsed(bare);
    BareFrames(bare);
    OnlyDirectory(s, directory);
    ApartFromFree(blocks, directory);
    hide Uses;
    Attach(bare, s, Table(SELF_MAP), directory, FreeSet(blocks));
  }

  lemma NothingUsed(s: Space)
    requires Sizes(s) && forall i :: 0 <= i < TABLE_SIZE ==> s.pd[i] == EMPTY
    ensures forall o, f :: !Uses(s, o, f)
  {
  }

  lemma OnlyDirectory(s: Space, directory: nat)
    requires Sizes(s) && s.pd[SELF_MAP] == Entry(directory, Flags(true, true, false, false, false))
    requires forall i :: 0 <= i < SELF_MAP ==> s.pd[i] == EMPTY
    ensures forall o, f :: Uses(s, o, f) <==> o == Table(SELF_MAP) && f == directory
  {
  }

  lemma BareFrames(s: Space)
    requires Sizes(s) && Canonical(s.free) && !Free(s.free, 0) && forall o, f :: !Uses(s, o, f)
    ensures Frames(s, FreeSet(s.free))
  {
  }

  lemma ApartFromFree(free: seq<MemoryBlock>, f: nat)
    requires FrameOk(free, f)
    ensures PageBytes(f) !! FreeSet(free)
  {
  }

  // ---- the steps of the code, as changes of a value ----

  /** Some table or page sits on frame 0: what running out of frames unnoticed leaves behind. */
  ghost predicate NullFrame(s: Space)
    requires Sizes(s)
  {
    exists o :: Uses(s, o, 0)
  }

  function ClaimPage(free: seq<MemoryBlock>): Claim {
    Allocate(free, 0, PAGE_SIZE, PAGE_SIZE)
  }

  function Left(free: seq<MemoryBlock>, c: Claim): seq<MemoryBlock> {
    if c.Fit? then c.blocks else free
  }

  /** A whole page, page-aligned, all of it free. */
  ghost predicate FreePage(free: seq<MemoryBlock>, f: nat) {
    Rem(f, PAGE_SIZE) == 0 && forall x :: In(x, f, PAGE_SIZE) ==> Free(free, x)
  }

  lemma ClaimPageIsExact(free: seq<MemoryBlock>)
    requires Canonical(free) && !Free(free, 0)
    ensures match ClaimPage(free)
      case NoFit => forall f :: !FreePage(free, f)
      case Fit(f, t) => FreePage(free, f) && f != 0 && Canonical(t) && !Free(t, 0) && RemovesExactly(free, t, f, PAGE_SIZE)
  {
    QuotRemUnique(0x1_0000_0000, PAGE_SIZE, 0x10_0000, 0);
    AllocateIsFirstFit(free, 0, PAGE_SIZE, PAGE_SIZE);
    var c := ClaimPage(free);
    if c.Fit? {
      assert In(c.address, c.address, PAGE_SIZE);
    } else {
      forall f: nat ensures !FreePage(free, f) {
        if FreePage(free, f) {
          assert In(f + PAGE_SIZE - 1, f, PAGE_SIZE);
          assert Free(free, f + PAGE_SIZE - 1);
          assert Fits(free, f, 0, 0x1_0000_0000, PAGE_SIZE, PAGE_SIZE);
        }
      }
    }
  }

  /** `memmanager_create_new_page_table`: a claimed frame, or frame 0 if there is none, and an empty table. */
  function WithTable(s: Space, i: nat, flags: Flags): Space
    requires i < |s.pd|
  {
    var c := ClaimPage(s.free);
    Space(Left(s.free, c), s.pd[i := Entry(Answer(c), Flags(true, true, flags.user, false, false))],
          seq(|s.pt|, v requires 0 <= v < |s.pt| => if TableOf(v) == i then EMPTY else s.pt[v]))
  }

  function WithEntry(s: Space, v: nat, e: Entry): Space
    requires v < |s.pt|
  {
    s.(pt := s.pt[v := e])
  }

  /** A claimed page has left the arena and may be attached. */
  lemma TakePage(s: Space, arena: set<int>) returns (f: nat, w: set<int>)
    requires Frames(s, arena) && ClaimPage(s.free).Fit?
    ensures var c := ClaimPage(s.free);
      && f == c.address && w == arena - PageBytes(f) && PageBytes(f) <= arena
      && Frames(s.(free := c.blocks), w) && FrameOk(c.blocks, f)
  {
    ClaimPageIsExact(s.free);
    f := ClaimPage(s.free).address;
    Withdraw(s, ClaimPage(s.free).blocks, f, arena);
    w := arena - PageBytes(f);
  }

  /** A new table keeps the invariant exactly when a page was free for it. */
  lemma WithTableKeeps(s: Space, i: nat, flags: Flags, arena: set<int>)
    requires Inv(s, arena) && i < SELF_MAP && !s.pd[i].flags.present
    ensures Inv(WithTable(s, i, flags), arena) <==> exists f :: FreePage(s.free, f)
    ensures Inv(WithTable(s, i, flags), arena) <==> !NullFrame(WithTable(s, i, flags))
  {
    var t := WithTable(s, i, flags);
    ClaimPageIsExact(s.free);
    forall v | 0 <= v < SELF_MAP * TABLE_SIZE && TableOf(v) != i ensures t.pt[v] == s.pt[v] && t.pd[TableOf(v)] == s.pd[TableOf(v)] {}
    forall p, h ensures Uses(t, p, h) <==> Uses(s, p, h) || (p == Table(i) && h == Answer(ClaimPage(s.free))) {}
    if ClaimPage(s.free).Fit? {
      var f, w := TakePage(s, arena);
      var u := s.(free := t.free);
      forall p, h ensures Uses(u, p, h) <==> Uses(s, p, h) {}
      Attach(u, t, Table(i), f, w);
      assert w + PageBytes(f) == arena;
    } else {
      assert Uses(t, Table(i), 0);
    }
    NullFrameBreaks(t, arena);
  }

  lemma NullFrameBreaks(s: Space, arena: set<int>)
    ensures Inv(s, arena) ==> !NullFrame(s)
  {
  }

  /** Reserving or clearing an entry that backs nothing. */
  lemma ReserveKeeps(s: Space, v: nat, e: Entry, arena: set<int>)
    requires Inv(s, arena) && v < SELF_MAP * TABLE_SIZE && !s.pt[v].flags.present && !e.flags.present
    requires e.flags.mapOnAccess ==> e.flags.reserved
    ensures Inv(WithEntry(s, v, e), arena)
  {
    var t := WithEntry(s, v, e);
    forall p, h ensures Uses(t, p, h) <==> Uses(s, p, h) {}
    SameFramesKeep(s, t, arena);
  }

  /** A page that belongs to nobody is put behind an entry that backs nothing. */
  lemma AttachPage(s: Space, v: nat, e: Entry, w: set<int>)
    requires Inv(s, w) && Mapped(s.pd, v) && !s.pt[v].flags.present
    requires e.flags.present && !e.flags.mapOnAccess && FrameOk(s.free, e.address) && PageBytes(e.address) !! w
    ensures Inv(WithEntry(s, v, e), w + PageBytes(e.address))
  {
    var t := WithEntry(s, v, e);
    forall p, h ensures Uses(t, p, h) <==> Uses(s, p, h) || (p == Page(v) && h == e.address) {}
    Attach(s, t, Page(v), e.address, w);
  }

  /** What a page fault leaves of a map-on-access page. */
  function Faulted(s: Space, v: nat): Space
    requires v < |s.pt|
  {
    var c := ClaimPage(s.free);
    WithEntry(s.(free := Left(s.free, c)), v, Entry(Answer(c), s.pt[v].flags.(present := true, reserved := false, mapOnAccess := false)))
  }

  lemma FaultedKeeps(s: Space, v: nat, arena: set<int>)
    requires Inv(s, arena) && Mapped(s.pd, v) && s.pt[v].flags.mapOnAccess && ClaimPage(s.free).Fit?
    ensures Inv(Faulted(s, v), arena)
  {
    var f, w := TakePage(s, arena);
    var u := s.(free := ClaimPage(s.free).blocks);
    AttachPage(u, v, Faulted(s, v).pt[v], w);
    assert w + PageBytes(f) == arena;
  }

  /** Field by field: the page keeps its rights, is present, no longer reserved nor map-on-access, and is backed by a page
      that was free; nothing else changes. */
  ghost predicate Backed(s: Space, t: Space, v: nat)
    requires v < |s.pt|
  {
    && t.pd == s.pd && |t.pt| == |s.pt| && (forall w :: 0 <= w < |s.pt| && w != v ==> t.pt[w] == s.pt[w])
    && var was, now := s.pt[v], t.pt[v];
    && now.flags.rw == was.flags.rw && now.flags.user == was.flags.user
    && now.flags.present && !now.flags.reserved && !now.flags.mapOnAccess
    && FreePage(s.free, now.address) && RemovesExactly(s.free, t.free, now.address, PAGE_SIZE)
  }

  lemma FaultedFields(s: Space, v: nat)
    requires Canonical(s.free) && !Free(s.free, 0) && v < |s.pt| && exists f :: FreePage(s.free, f)
    ensures Backed(s, Faulted(s, v), v)
  {
    hide FreePage, Canonical, RemovesExactly;
    ClaimPageIsExact(s.free);
  }

  /** A new table, field by field: writable, for the user exactly if the request is, and empty. */
  lemma TableFields(s: Space, i: nat, flags: Flags)
    requires Canonical(s.free) && !Free(s.free, 0) && Sizes(s) && i < TABLE_SIZE
    ensures var t := WithTable(s, i, flags); var now := t.pd[i];
      && now.flags.present && now.flags.rw && now.flags.user == flags.user && !now.flags.reserved && !now.flags.mapOnAccess
      && (if exists f :: FreePage(s.free, f)
          then FreePage(s.free, now.address) && RemovesExactly(s.free, t.free, now.address, PAGE_SIZE)
          else now.address == 0 && t.free == s.free)
      && Sizes(t) && (forall k :: 0 <= k < TABLE_SIZE && k != i ==> t.pd[k] == s.pd[k])
      && (forall v :: 0 <= v < |s.pt| ==> if v / 1024 == i then t.pt[v].address == 0 && IsClear(t.pt[v].flags) else t.pt[v] == s.pt[v])
  {
    hide FreePage, Canonical, RemovesExactly;
    ClaimPageIsExact(s.free);
  }

  predicate IsClear(flags: Flags) {
    !flags.present && !flags.rw && !flags.user && !flags.mapOnAccess && !flags.reserved
  }

  /** A freed page, field by field: its entry is clear, its frame is free again if it had one, and nothing else changes. */
  lemma ReleasedFields(s: Space, v: nat, arena: set<int>)
    requires Inv(s, arena) && Mapped(s.pd, v)
    ensures var t := Released(s, v);
      && t.pt[v].address == 0 && IsClear(t.pt[v].flags) && t.pd == s.pd && |t.pt| == |s.pt|
      && (forall w :: 0 <= w < |s.pt| && w != v ==> t.pt[w] == s.pt[w])
      && (forall x :: Free(t.free, x) <==> Free(s.free, x) || (s.pt[v].flags.present && In(x, s.pt[v].address, PAGE_SIZE)))
  {
    ReleasedKeeps(s, v, arena);
    if s.pt[v].flags.present {
      FreedIsExact(s.free, 0, s.pt[v].address, PAGE_SIZE);
    }
  }

  /** `memmanager_free_pages` on one page: clear the entry and give the frame back if there is one. */
  function Released(s: Space, v: nat): Space
    requires v < |s.pt|
  {
    var t := WithEntry(s, v, EMPTY);
    if s.pt[v].flags.present then t.(free := Freed(s.free, 0, s.pt[v].address, PAGE_SIZE)) else t
  }

  lemma ReleasedKeeps(s: Space, v: nat, arena: set<int>)
    requires Inv(s, arena) && Mapped(s.pd, v)
    ensures s.pt[v].flags.present ==> Freeable(s.free, s.pt[v].address, PAGE_SIZE)
    ensures Inv(Released(s, v), arena)
  {
    if !s.pt[v].flags.present {
      ReserveKeeps(s, v, EMPTY, arena);
    } else {
      var f := s.pt[v].address;
      var u := WithEntry(s, v, EMPTY);
      assert Uses(s, Page(v), f);
      forall p, h ensures Uses(u, p, h) <==> Uses(s, p, h) && p != Page(v) {}
      Detach(s, u, Page(v), f, arena);
      assert Freeable(s.free, f, PAGE_SIZE);
      FreedIsExact(s.free, 0, f, PAGE_SIZE);
      var t := Released(s, v);
      assert !In(0, f, PAGE_SIZE);
      Deposit(u, t.free, f, arena - PageBytes(f));
      assert arena - PageBytes(f) + PageBytes(f) == arena;
    }
  }

  /** Freeing a page that was faulted in restores the free list the fault started from, block for block. */
  lemma FreeUndoesFault(s: Space, v: nat, arena: set<int>)
    requires Inv(s, arena) && Mapped(s.pd, v) && s.pt[v].flags.mapOnAccess && ClaimPage(s.free).Fit?
    ensures Released(Faulted(s, v), v) == WithEntry(s, v, EMPTY)
  {
    var c := ClaimPage(s.free);
    ClaimPageIsExact(s.free);
    assert In(c.address + PAGE_SIZE - 1, c.address, PAGE_SIZE);
    assert Free(s.free, c.address + PAGE_SIZE - 1);
    FreeUndoesClaim(s.free, c.blocks, c.address, PAGE_SIZE);
  }

  // ---- what calls do to the space ----

  /** The invariant, or frame 0 in use: the two cannot both hold. */
  ghost predicate Sound(s: Space, arena: set<int>) {
    Inv(s, arena) || (Sizes(s) && NullFrame(s))
  }

  lemma SoundMeans(s: Space, arena: set<int>)
    requires Sound(s, arena)
    ensures Inv(s, arena) <==> !NullFrame(s)
  {
  }

  lemma WithTableSound(s: Space, i: nat, flags: Flags, arena: set<int>)
    requires Sound(s, arena) && i < SELF_MAP && !s.pd[i].flags.present
    ensures Sound(WithTable(s, i, flags), arena)
  {
    if Inv(s, arena) {
      WithTableKeeps(s, i, flags, arena);
    } else {
      var o :| Uses(s, o, 0);
      var t := WithTable(s, i, flags);
      forall v | 0 <= v < SELF_MAP * TABLE_SIZE && TableOf(v) != i ensures t.pt[v] == s.pt[v] {}
      assert Uses(t, o, 0);
    }
  }

  lemma ReserveSound(s: Space, v: nat, e: Entry, arena: set<int>)
    requires Sound(s, arena) && v < SELF_MAP * TABLE_SIZE && !s.pt[v].flags.present && !e.flags.present
    requires e.flags.mapOnAccess ==> e.flags.reserved
    ensures Sound(WithEntry(s, v, e), arena)
  {
    if Inv(s, arena) {
      ReserveKeeps(s, v, e, arena);
    } else {
      var o :| Uses(s, o, 0);
      assert Uses(WithEntry(s, v, e), o, 0);
    }
  }

  /** Tables of the requested kind were added where there were none, all empty; nothing else changed. */
  ghost predicate Grown(s: Space, t: Space, user: bool)
    requires Sizes(s) && Sizes(t)
  {
    && (forall i :: 0 <= i < TABLE_SIZE ==>
          t.pd[i] == s.pd[i] || (!s.pd[i].flags.present && t.pd[i].flags == Flags(true, true, user, false, false)))
    && (forall v :: 0 <= v < TABLE_SIZE * TABLE_SIZE ==>
          t.pt[v] == if t.pd[TableOf(v)] == s.pd[TableOf(v)] then s.pt[v] else EMPTY)
  }

  lemma WithTableGrows(s: Space, t: Space, i: nat, flags: Flags)
    requires Sizes(s) && Sizes(t) && Grown(s, t, flags.user) && i < TABLE_SIZE && !t.pd[i].flags.present
    ensures Grown(s, WithTable(t, i, flags), flags.user)
  {
  }

  /** A page that a request for this kind may use. */
  predicate Usable(s: Space, v: nat, user: bool)
    requires |s.pd| == TABLE_SIZE && |s.pt| == TABLE_SIZE * TABLE_SIZE
  {
    Mapped(s.pd, v) && s.pd[TableOf(v)].flags.user == user && !s.pt[v].flags.Allocated()
  }

  ghost predicate RunOf(s: Space, p: nat, n: nat, user: bool)
    requires Sizes(s)
  {
    forall v :: p <= v < p + n ==> Usable(s, v, user)
  }

  /** No run of `n` usable pages lies in `[start, pos)`. */
  ghost predicate NoRun(s: Space, start: nat, pos: nat, n: nat, user: bool)
    requires Sizes(s)
  {
    forall p: nat :: start <= p && p + n <= pos ==> !RunOf(s, p, n, user)
  }

  /** `found` counts the usable pages that end at `pos`, back to `start` at most; none of the runs so far has `n`. */
  ghost predicate Scanned(s: Space, start: nat, pos: nat, n: nat, user: bool, found: nat)
    requires Sizes(s)
  {
    && start + found <= pos
    && RunOf(s, pos - found, found, user)
    && (start + found < pos ==> !Usable(s, pos - found - 1, user))
    && (n > 0 ==> found < n && NoRun(s, start, pos, n, user))
  }

  lemma ScannedNext(s: Space, start: nat, pos: nat, n: nat, user: bool, found: nat)
    requires Sizes(s) && Scanned(s, start, pos, n, user, found)
    ensures start + found <= pos
    ensures !Usable(s, pos, user) ==> Scanned(s, start, pos + 1, n, user, 0)
    ensures Usable(s, pos, user) && found + 1 != n ==> Scanned(s, start, pos + 1, n, user, found + 1)
    ensures Usable(s, pos, user) && found + 1 == n ==> RunOf(s, pos + 1 - n, n, user)
  {
  }

  /** Every table a request of this kind may use is there, and none of them leaves a run of `n` pages. */
  ghost predicate Exhausted(s: Space, n: nat, user: bool)
    requires Sizes(s)
  {
    var first := if user then 0 else KERNEL_FIRST;
    && (forall i :: first <= i < SELF_MAP ==> s.pd[i].flags.present)
    && (n > 0 ==> NoRun(s, 1024 * first, 1024 * SELF_MAP, n, user))
  }

  /** The pages of a run can all be mapped. */
  lemma RunMappable(s: Space, p: nat, n: nat, user: bool)
    requires Sizes(s) && RunOf(s, p, n, user)
    ensures forall v :: p <= v < p + n ==> Mappable(s, v, user)
  {
    forall v | p <= v < p + n ensures Mappable(s, v, user) {
      assert Usable(s, v, user);
    }
  }

  lemma StartOfScan(s: Space, start: nat, n: nat, user: bool)
    requires Sizes(s)
    ensures Scanned(s, start, start, n, user, 0) && Grown(s, s, user)
  {
  }

  lemma ScannedMeans(s: Space, start: nat, pos: nat, n: nat, user: bool, found: nat)
    requires Sizes(s) && Scanned(s, start, pos, n, user, found)
    ensures n > 0 ==> NoRun(s, start, pos, n, user)
  {
  }

  lemma PageNumber(p: nat)
    ensures 4096 * p / 4096 == p && Rem(4096 * p, PAGE_SIZE) == 0
  {
  }

  lemma NewTableIsARun(s: Space, d: nat, n: nat, user: bool)
    requires Sizes(s) && d < SELF_MAP && s.pd[d].flags.present && s.pd[d].flags.user == user && n <= TABLE_SIZE
    requires forall v :: 1024 * d <= v < 1024 * d + 1024 ==> s.pt[v] == EMPTY
    ensures Rem(d * 0x40_0000, PAGE_SIZE) == 0 && d * 0x40_0000 / 4096 == 1024 * d && RunOf(s, 1024 * d, n, user)
  {
    PageNumber(1024 * d);
  }

  /** A whole table of the wrong kind. */
  lemma ScannedSkip(s: Space, start: nat, i: nat, n: nat, user: bool, found: nat)
    requires Sizes(s) && i < SELF_MAP && Scanned(s, start, 1024 * i, n, user, found)
    requires s.pd[i].flags.user != user
    ensures Scanned(s, start, 1024 * i + 1024, n, user, 0)
  {
    if n > 0 {
      forall p: nat | start <= p && p + n <= 1024 * i + 1024 ensures !RunOf(s, p, n, user) {
        if p + n > 1024 * i {
          assert !Usable(s, p + n - 1, user);
        }
      }
    }
    assert !Usable(s, 1024 * i + 1023, user);
  }

  /** A table made further on changes nothing about what was scanned. */
  lemma ScannedGrown(s: Space, start: nat, i: nat, n: nat, user: bool, found: nat, flags: Flags)
    requires Sizes(s) && i < SELF_MAP && Scanned(s, start, 1024 * i, n, user, found) && !s.pd[i].flags.present
    ensures Scanned(WithTable(s, i, flags), start, 1024 * i, n, user, found)
  {
    var t := WithTable(s, i, flags);
    forall v: nat | v < 1024 * i ensures Usable(t, v, user) == Usable(s, v, user) {}
    if n > 0 {
      forall p: nat | start <= p && p + n <= 1024 * i ensures !RunOf(t, p, n, user) {
        assert !RunOf(s, p, n, user);
        var v: nat :| p <= v < p + n && !Usable(s, v, user);
        assert !Usable(t, v, user);
      }
    }
  }

  /** The address the search returns, computed in 32 bits, for a run that may begin tables before it ends. */
  lemma RunAddress(d: nat, i: nat, n: nat)
    requires d < SELF_MAP && i < TABLE_SIZE && 0 < n <= 1024 * d + i + 1
    ensures Trunc32(Trunc32(d * 0x40_0000) + Trunc32(Trunc32(i - (n - 1)) * 4096)) == 4096 * (1024 * d + i + 1 - n)
  {
  }

  /** Page `v` can be mapped with these rights: nothing is there, and the table, if there is one, allows it. */
  predicate Mappable(s: Space, v: nat, user: bool)
    requires |s.pd| == TABLE_SIZE && |s.pt| == TABLE_SIZE * TABLE_SIZE
  {
    v < SELF_MAP * TABLE_SIZE
    && (Mapped(s.pd, v) ==> !s.pt[v].flags.Allocated() && (user ==> s.pd[TableOf(v)].flags.user))
  }

  /** Which pages a search may use, may be mapped and may be freed, told from the two bits of their entries. */
  lemma PagesByBits(s: Space, v: nat, user: bool)
    requires Sizes(s)
    ensures v >= 1023 * 1024 ==> !Usable(s, v, user) && !Mappable(s, v, user) && !Held(s, v)
    ensures v < 1023 * 1024 ==> var table, page := s.pd[v / 1024].flags, s.pt[v].flags;
      var taken := page.present || page.reserved;
      && (Usable(s, v, user) <==> table.present && table.user == user && !taken)
      && (Mappable(s, v, user) <==> !table.present || (!taken && (user ==> table.user)))
      && (Held(s, v) <==> table.present && taken)
  {
  }

  /** The kernel's pages begin at KERNEL_SPLIT, and the self-map window is the last directory slot. */
  lemma KernelSplit()
    ensures 4096 * 1024 * FirstTable(false) == 0xFFFF_FFFF - 0xFFFF_FFFF / 8 == 0xE000_0000 && FirstTable(true) == 0
    ensures 4096 * 1024 * SELF_MAP == 0xFFC0_0000 && 4096 * 1024 * (SELF_MAP + 1) == 0x1_0000_0000
  {
  }

  /** `memmanager_map_page` where it succeeds. */
  function WithMapping(s: Space, v: nat, e: Entry): Space
    requires |s.pd| == TABLE_SIZE && |s.pt| == TABLE_SIZE * TABLE_SIZE && v < SELF_MAP * TABLE_SIZE
  {
    WithEntry(if Mapped(s.pd, v) then s else WithTable(s, TableOf(v), e.flags), v, e)
  }

  /** Pages `[p, p + n)` were mappable and now hold `e`; every page mapped before and outside is as it was. */
  ghost predicate Placed(s: Space, t: Space, p: nat, n: nat, e: Entry)
    requires Sizes(s) && Sizes(t)
  {
    && (forall v :: p <= v < p + n ==> Mappable(s, v, e.flags.user) && Mapped(t.pd, v) && t.pt[v] == e)
    && (forall v :: 0 <= v < SELF_MAP * TABLE_SIZE && !(p <= v < p + n) ==>
          && (Mapped(s.pd, v) ==> t.pt[v] == s.pt[v])
          && (Mapped(t.pd, v) && !Mapped(s.pd, v) ==> t.pt[v] == EMPTY && t.pd[TableOf(v)].flags.user == e.flags.user))
    && (forall i :: 0 <= i < TABLE_SIZE && s.pd[i].flags.present ==> t.pd[i] == s.pd[i])
    && (forall i :: 0 <= i < TABLE_SIZE && t.pd[i] != s.pd[i] ==> n > 0 && 1024 * i < p + n && p < 1024 * i + 1024)
  }

  lemma EagerGrows(s: Space, p: nat, flags: Flags)
    requires Sizes(s) && p < SELF_MAP * TABLE_SIZE
    ensures Sizes(EagerPage(s, p, flags))
    ensures forall i :: 0 <= i < TABLE_SIZE && s.pd[i].flags.present ==> EagerPage(s, p, flags).pd[i].flags.present
  {
  }

  lemma PlacedNone(s: Space, p: nat, e: Entry)
    requires Sizes(s)
    ensures Placed(s, s, p, 0, e)
  {
  }

  lemma PlacedNext(s: Space, t: Space, p: nat, n: nat, e: Entry)
    requires Sizes(s) && Sizes(t) && Placed(s, t, p, n, e) && p + n < SELF_MAP * TABLE_SIZE
    ensures Mappable(t, p + n, e.flags.user) <==> Mappable(s, p + n, e.flags.user)
    ensures Mappable(t, p + n, e.flags.user) ==> Placed(s, WithMapping(t, p + n, e), p, n + 1, e)
  {
    hide WithMapping;
    if Mappable(t, p + n, e.flags.user) {
      var u := WithMapping(t, p + n, e);
      MappingIs(t, p + n, e);
      forall v | p <= v < p + n + 1 ensures Mappable(s, v, e.flags.user) && Mapped(u.pd, v) && u.pt[v] == e {}
    }
  }

  /** What mapping a page leaves of everything else. */
  lemma MappingIs(t: Space, v: nat, e: Entry)
    requires Sizes(t) && v < SELF_MAP * TABLE_SIZE && Mappable(t, v, e.flags.user)
    ensures var u := WithMapping(t, v, e);
      && Sizes(u) && Mapped(u.pd, v) && u.pt[v] == e
      && (forall w: nat :: w < SELF_MAP * TABLE_SIZE && w != v ==>
            && (Mapped(t.pd, w) ==> u.pt[w] == t.pt[w] && Mapped(u.pd, w))
            && (Mapped(u.pd, w) && !Mapped(t.pd, w) ==> u.pt[w] == EMPTY && u.pd[TableOf(w)].flags.user == e.flags.user))
      && (forall i :: 0 <= i < TABLE_SIZE && t.pd[i].flags.present ==> u.pd[i] == t.pd[i])
      && (forall i :: 0 <= i < TABLE_SIZE && i != TableOf(v) ==> u.pd[i] == t.pd[i])
  {
    hide ClaimPage;
  }

  /** One page mapped at once, its frame claimed first. */
  function EagerPage(s: Space, p: nat, flags: Flags): Space
    requires |s.pd| == TABLE_SIZE && |s.pt| == TABLE_SIZE * TABLE_SIZE && p < SELF_MAP * TABLE_SIZE
  {
    var c := ClaimPage(s.free);
    WithMapping(s.(free := Left(s.free, c)), p, Entry(Answer(c), flags))
  }

  /** An eager page, field by field: the rights asked for, backed by a page that was free. */
  lemma EagerFields(s: Space, p: nat, flags: Flags)
    requires Canonical(s.free) && !Free(s.free, 0) && Sizes(s) && Mappable(s, p, flags.user) && exists f :: FreePage(s.free, f)
    ensures Sizes(EagerPage(s, p, flags))
    ensures var t := EagerPage(s, p, flags); var now := t.pt[p];
      && now.flags.present == flags.present && now.flags.rw == flags.rw && now.flags.user == flags.user
      && now.flags.reserved == flags.reserved && now.flags.mapOnAccess == flags.mapOnAccess && FreePage(s.free, now.address)
      && t.pd[p / 1024].flags.present && (flags.user ==> t.pd[p / 1024].flags.user)
      && (s.pd[p / 1024].flags.present ==> t.pd == s.pd && forall w :: 0 <= w < |s.pt| && w != p ==> t.pt[w] == s.pt[w])
  {
    hide FreePage, Canonical, RemovesExactly;
    ClaimPageIsExact(s.free);
  }

  /** A second round finds the page taken. */
  lemma EagerTwice(s: Space, p: nat, flags: Flags)
    requires Sizes(s) && p < SELF_MAP * TABLE_SIZE && flags.present
    ensures Sizes(EagerPage(s, p, flags)) && !Mappable(EagerPage(s, p, flags), p, flags.user)
  {
  }

  lemma EagerSound(s: Space, p: nat, flags: Flags, arena: set<int>)
    requires Sound(s, arena) && p < SELF_MAP * TABLE_SIZE && Mappable(s, p, flags.user)
    requires flags.present && !flags.mapOnAccess
    ensures Sound(EagerPage(s, p, flags), arena)
  {
    var c := ClaimPage(s.free);
    var u := s.(free := Left(s.free, c));
    var e := Entry(Answer(c), flags);
    var t := if Mapped(s.pd, p) then u else WithTable(u, TableOf(p), flags);
    if NullFrame(s) {
      NullFrameGrows(s, u, t);
      NullFrameStays(t, p, e);
    } else if c.NoFit? {
      assert Uses(WithEntry(t, p, e), Page(p), 0);
    } else {
      var f, w := TakePage(s, arena);
      if Mapped(s.pd, p) {
        AttachPage(u, p, e, w);
        assert w + PageBytes(f) == arena;
      } else {
        EagerPageInNewTable(u, p, e, w, arena);
      }
    }
  }

  lemma NullFrameGrows(s: Space, u: Space, t: Space)
    requires Sizes(s) && NullFrame(s) && u == s.(free := u.free)
    requires t == u || exists i: nat, flags :: i < SELF_MAP && !s.pd[i].flags.present && t == WithTable(u, i, flags)
    ensures NullFrame(t)
  {
    var o :| Uses(s, o, 0);
    if t != u {
      var i: nat, flags :| i < SELF_MAP && !s.pd[i].flags.present && t == WithTable(u, i, flags);
      forall v | 0 <= v < SELF_MAP * TABLE_SIZE && TableOf(v) != i ensures t.pt[v] == s.pt[v] {}
    }
    assert Uses(t, o, 0);
  }

  lemma EagerPageInNewTable(u: Space, p: nat, e: Entry, w: set<int>, arena: set<int>)
    requires Inv(u, w) && p < SELF_MAP * TABLE_SIZE && !Mapped(u.pd, p) && e.flags.present && !e.flags.mapOnAccess
    requires FrameOk(u.free, e.address) && PageBytes(e.address) !! w && w + PageBytes(e.address) == arena
    ensures Sound(WithMapping(u, p, e), arena)
  {
    var t := WithTable(u, TableOf(p), e.flags);
    WithTableSound(u, TableOf(p), e.flags, w);
    if Inv(t, w) {
      ClaimPageIsExact(u.free);
      assert FrameOk(t.free, e.address);
      AttachPage(t, p, e, w);
    } else {
      NullFrameStays(t, p, e);
    }
  }

  lemma NullFrameStays(s: Space, v: nat, e: Entry)
    requires Sizes(s) && NullFrame(s) && v < SELF_MAP * TABLE_SIZE && !s.pt[v].flags.present
    ensures NullFrame(WithEntry(s, v, e))
  {
    var o :| Uses(s, o, 0);
    assert Uses(WithEntry(s, v, e), o, 0);
  }

  lemma MappingSound(s: Space, v: nat, e: Entry, arena: set<int>)
    requires Sound(s, arena) && v < SELF_MAP * TABLE_SIZE && Mappable(s, v, e.flags.user)
    requires !e.flags.present && (e.flags.mapOnAccess ==> e.flags.reserved)
    ensures Sound(WithMapping(s, v, e), arena)
  {
    if Mapped(s.pd, v) {
      ReserveSound(s, v, e, arena);
    } else {
      WithTableSound(s, TableOf(v), e.flags, arena);
      ReserveSound(WithTable(s, TableOf(v), e.flags), v, e, arena);
    }
  }

  // ---- how many pages a call takes ----

  /** The frames that a claim can still get. */
  ghost function PageSet(free: seq<MemoryBlock>): set<nat> {
    set f: nat | f < 0x1_0000_0000 && FreePage(free, f)
  }

  ghost function PageCount(free: seq<MemoryBlock>): nat {
    |PageSet(free)|
  }

  /** Every claim takes one of them, until there are none. */
  lemma ClaimTakesOne(free: seq<MemoryBlock>)
    requires Canonical(free) && !Free(free, 0)
    ensures match ClaimPage(free)
      case NoFit => PageCount(free) == 0 && forall f :: !FreePage(free, f)
      case Fit(f, t) => Canonical(t) && !Free(t, 0) && FreePage(free, f) && PageCount(t) + 1 == PageCount(free)
  {
    ClaimPageIsExact(free);
    var c := ClaimPage(free);
    if c.Fit? {
      PageBelow(free, c.address);
      forall g: nat ensures FreePage(c.blocks, g) <==> FreePage(free, g) && g != c.address {
        OnePageLess(free, c.blocks, c.address, g);
      }
      assert PageSet(c.blocks) == PageSet(free) - {c.address};
    } else {
      assert PageSet(free) == {};
    }
  }

  lemma PageBelow(free: seq<MemoryBlock>, f: nat)
    requires Canonical(free) && FreePage(free, f)
    ensures f < 0x1_0000_0000
  {
    assert In(f, f, PAGE_SIZE);
  }

  lemma OnePageLess(free: seq<MemoryBlock>, t: seq<MemoryBlock>, f: nat, g: nat)
    requires RemovesExactly(free, t, f, PAGE_SIZE) && FreePage(free, f)
    ensures FreePage(t, g) <==> FreePage(free, g) && g != f
  {
    if FreePage(t, g) {
      assert In(g, g, PAGE_SIZE);
    }
    if FreePage(free, g) && g != f {
      forall x | In(x, g, PAGE_SIZE) ensures Free(t, x) {
        if In(x, f, PAGE_SIZE) {
          FrameUnique(f, g, x);
        }
      }
    }
  }

  lemma SomePage(free: seq<MemoryBlock>)
    requires Canonical(free)
    ensures PageCount(free) > 0 <==> exists f :: FreePage(free, f)
  {
    if f: nat :| FreePage(free, f) {
      PageBelow(free, f);
      assert f in PageSet(free);
    }
    if PageCount(free) > 0 {
      assert PageSet(free) != {};
      var f :| f in PageSet(free);
    }
  }

  /** The tables that are in `t` and were not in `s`. */
  ghost function MadeTables(s: Space, t: Space): set<nat>
    requires Sizes(s) && Sizes(t)
  {
    set i: nat | i < TABLE_SIZE && t.pd[i].flags.present && !s.pd[i].flags.present
  }

  /** From `s`, where the invariant held, to `t`: one page claimed for each table made; frame 0 in use exactly when there
      were too few. */
  ghost predicate Account(s: Space, t: Space, arena: set<int>) {
    && Sizes(s) && Sizes(t) && Canonical(t.free) && !Free(t.free, 0) && Sound(t, arena)
    && (forall i :: 0 <= i < TABLE_SIZE && s.pd[i].flags.present ==> t.pd[i].flags.present)
    && var n, made := PageCount(s.free), |MadeTables(s, t)|;
    && PageCount(t.free) == (if made <= n then n - made else 0)
    && (NullFrame(t) <==> made > n)
  }

  lemma AccountStart(s: Space, arena: set<int>)
    requires Inv(s, arena)
    ensures Account(s, s, arena)
  {
    assert MadeTables(s, s) == {};
    NullFrameBreaks(s, arena);
  }

  lemma AccountTable(s: Space, t: Space, i: nat, flags: Flags, arena: set<int>)
    requires Account(s, t, arena) && i < SELF_MAP && !t.pd[i].flags.present
    ensures Account(s, WithTable(t, i, flags), arena)
  {
    hide PageCount, Frames, FreePage, Free, ClaimPage;
    var u := WithTable(t, i, flags);
    assert MadeTables(s, u) == MadeTables(s, t) + {i};
    ClaimTakesOne(t.free);
    WithTableSound(t, i, flags, arena);
    if Inv(t, arena) {
      NullFrameBreaks(t, arena);
      WithTableKeeps(t, i, flags, arena);
      SomePage(t.free);
    } else {
      NullFrameGrows(t, t.(free := u.free), u);
    }
  }

  lemma AccountEntry(s: Space, t: Space, v: nat, e: Entry, arena: set<int>)
    requires Account(s, t, arena) && v < SELF_MAP * TABLE_SIZE && !t.pt[v].flags.present && !e.flags.present
    requires e.flags.mapOnAccess ==> e.flags.reserved
    ensures Account(s, WithEntry(t, v, e), arena)
  {
    hide PageCount, Inv, Free, Canonical;
    var u := WithEntry(t, v, e);
    assert MadeTables(s, u) == MadeTables(s, t);
    ReserveSound(t, v, e, arena);
    forall o, f ensures Uses(u, o, f) <==> Uses(t, o, f) {}
  }

  lemma AccountMapping(s: Space, t: Space, v: nat, e: Entry, arena: set<int>)
    requires Account(s, t, arena) && v < SELF_MAP * TABLE_SIZE && Mappable(t, v, e.flags.user)
    requires !e.flags.present && (e.flags.mapOnAccess ==> e.flags.reserved)
    ensures Account(s, WithMapping(t, v, e), arena)
  {
    hide Inv, PageCount, MadeTables;
    if !Mapped(t.pd, v) {
      AccountTable(s, t, TableOf(v), e.flags, arena);
      AccountEntry(s, WithTable(t, TableOf(v), e.flags), v, e, arena);
    } else {
      AccountEntry(s, t, v, e, arena);
    }
  }

  /** So the invariant still holds exactly if there were enough pages for the tables. */
  lemma AccountMeans(s: Space, t: Space, arena: set<int>)
    requires Account(s, t, arena)
    ensures Inv(t, arena) <==> |MadeTables(s, t)| <= PageCount(s.free)
  {
    hide Inv, PageCount, MadeTables;
    SoundMeans(t, arena);
  }

  /** One eager page keeps the invariant exactly when there is a page for it, and one more for its table if that is
      missing. */
  lemma EagerExact(s: Space, p: nat, flags: Flags, arena: set<int>)
    requires Inv(s, arena) && p < SELF_MAP * TABLE_SIZE && Mappable(s, p, flags.user) && flags.present && !flags.mapOnAccess
    ensures Inv(EagerPage(s, p, flags), arena) <==> PageCount(s.free) >= if Mapped(s.pd, p) then 1 else 2
  {
    hide PageCount, FreePage, Free;
    ClaimTakesOne(s.free);
    EagerSound(s, p, flags, arena);
    var c := ClaimPage(s.free);
    var t := EagerPage(s, p, flags);
    SoundMeans(t, arena);
    assert Mapped(t.pd, p) && t.pt[p] == Entry(Answer(c), flags);
    if c.NoFit? {
      assert Uses(t, Page(p), 0);
    } else if Mapped(s.pd, p) {
      EagerMapped(s, p, flags, arena);
    } else {
      ClaimTakesOne(c.blocks);
      EagerUnmapped(s, p, flags, arena);
    }
  }

  lemma EagerMapped(s: Space, p: nat, flags: Flags, arena: set<int>)
    requires Inv(s, arena) && Mapped(s.pd, p) && !s.pt[p].flags.present && flags.present && !flags.mapOnAccess
    requires ClaimPage(s.free).Fit?
    ensures Inv(EagerPage(s, p, flags), arena)
  {
    var f, w := TakePage(s, arena);
    AttachPage(s.(free := ClaimPage(s.free).blocks), p, Entry(f, flags), w);
    assert w + PageBytes(f) == arena;
  }

  lemma EagerUnmapped(s: Space, p: nat, flags: Flags, arena: set<int>)
    requires Inv(s, arena) && p < SELF_MAP * TABLE_SIZE && !Mapped(s.pd, p) && flags.present && !flags.mapOnAccess
    requires ClaimPage(s.free).Fit?
    ensures !NullFrame(EagerPage(s, p, flags)) <==> ClaimPage(ClaimPage(s.free).blocks).Fit?
  {
    hide FreePage, Free;
    var f, w := TakePage(s, arena);
    var u := s.(free := ClaimPage(s.free).blocks);
    var e := Entry(f, flags);
    var t := WithTable(u, TableOf(p), flags);
    ClaimPageIsExact(u.free);
    WithTableKeeps(u, TableOf(p), flags, w);
    if ClaimPage(u.free).Fit? {
      EagerInTable(u, t, p, e, w);
      NullFrameBreaks(WithEntry(t, p, e), w + PageBytes(f));
    } else {
      NullFrameStays(t, p, e);
    }
  }

  lemma EagerInTable(u: Space, t: Space, p: nat, e: Entry, w: set<int>)
    requires Canonical(u.free) && !Free(u.free, 0)
    requires Inv(t, w) && Mapped(t.pd, p) && !t.pt[p].flags.present && e.flags.present && !e.flags.mapOnAccess
    requires FrameOk(u.free, e.address) && PageBytes(e.address) !! w && t.free == Left(u.free, ClaimPage(u.free))
    ensures Inv(WithEntry(t, p, e), w + PageBytes(e.address))
  {
    ClaimPageIsExact(u.free);
    assert FrameOk(t.free, e.address);
    AttachPage(t, p, e, w);
  }

  lemma EagerTables(s: Space, t: Space, p: nat, flags: Flags)
    requires Sizes(s) && Sizes(t) && p < SELF_MAP * TABLE_SIZE
    requires forall i :: 0 <= i < TABLE_SIZE && s.pd[i].flags.present ==> t.pd[i].flags.present
    ensures Sizes(EagerPage(t, p, flags))
    ensures MadeTables(s, EagerPage(t, p, flags)) == MadeTables(s, t) + if Mapped(t.pd, p) then {} else {TableOf(p)}
  {
    hide ClaimPage;
  }

  lemma EagerMakes(was: Space, s: Space, p: nat, flags: Flags, arena: set<int>)
    requires Account(was, s, arena) && p < SELF_MAP * TABLE_SIZE
    ensures Sizes(EagerPage(s, p, flags)) && MadeTables(s, EagerPage(s, p, flags)) == RangeTables(s, p, 1)
    ensures |MadeTables(was, EagerPage(s, p, flags))| == |MadeTables(was, s)| + if Mapped(s.pd, p) then 0 else 1
  {
    hide EagerPage, Inv, PageCount;
    EagerTables(was, s, p, flags);
    EagerTables(s, s, p, flags);
    assert MadeTables(s, s) == {};
    assert RangeTables(s, p, 1) == if Mapped(s.pd, p) then {} else {TableOf(p)};
  }

  lemma PlacedGrows(s: Space, t: Space, p: nat, n: nat, e: Entry)
    requires Sizes(s) && Sizes(t) && Placed(s, t, p, n, e)
    ensures forall i :: 0 <= i < TABLE_SIZE && s.pd[i].flags.present ==> t.pd[i].flags.present
  {
  }

  /** The same, after some tables have been made. */
  lemma AccountEager(s: Space, t: Space, p: nat, flags: Flags, arena: set<int>)
    requires Account(s, t, arena) && p < SELF_MAP * TABLE_SIZE && Mappable(t, p, flags.user)
    requires flags.present && !flags.mapOnAccess
    ensures Inv(EagerPage(t, p, flags), arena) <==>
      |MadeTables(s, t)| + (if Mapped(t.pd, p) then 1 else 2) <= PageCount(s.free)
  {
    hide PageCount, MadeTables, EagerPage;
    SoundMeans(t, arena);
    EagerSound(t, p, flags, arena);
    SoundMeans(EagerPage(t, p, flags), arena);
    if Inv(t, arena) {
      EagerExact(t, p, flags, arena);
    } else {
      EagerStays(t, p, flags);
    }
  }

  lemma EagerStays(s: Space, p: nat, flags: Flags)
    requires Sizes(s) && NullFrame(s) && p < SELF_MAP * TABLE_SIZE && Mappable(s, p, flags.user)
    ensures NullFrame(EagerPage(s, p, flags))
  {
    var c := ClaimPage(s.free);
    var u := s.(free := Left(s.free, c));
    var t := if Mapped(s.pd, p) then u else WithTable(u, TableOf(p), flags);
    NullFrameGrows(s, u, t);
    NullFrameStays(t, p, Entry(Answer(c), flags));
  }

  /** The missing tables of a range of pages. */
  ghost function RangeTables(s: Space, p: nat, n: nat): set<nat>
    requires Sizes(s)
  {
    set i: nat | i < TABLE_SIZE && !s.pd[i].flags.present && n > 0 && 1024 * i < p + n && p < 1024 * i + 1024
  }

  lemma PlacedMakes(s: Space, t: Space, p: nat, n: nat, e: Entry)
    requires Sizes(s) && Sizes(t) && Placed(s, t, p, n, e) && p + n <= SELF_MAP * TABLE_SIZE
    ensures MadeTables(s, t) == RangeTables(s, p, n)
  {
    forall i: nat | i in RangeTables(s, p, n) ensures t.pd[i].flags.present {
      var v := if 1024 * i < p then p else 1024 * i;
      assert TableOf(v) == i && Mapped(t.pd, v);
    }
  }

  lemma MadeTwice(s: Space, t: Space, u: Space)
    requires Sizes(s) && Sizes(t) && Sizes(u) && MadeTables(t, u) == {}
    requires forall i :: 0 <= i < TABLE_SIZE && t.pd[i].flags.present ==> u.pd[i].flags.present
    ensures MadeTables(s, u) == MadeTables(s, t)
  {
    forall i: nat | i < TABLE_SIZE ensures u.pd[i].flags.present == t.pd[i].flags.present {
      assert i !in MadeTables(t, u);
    }
  }

  lemma RunNeedsNone(s: Space, p: nat, n: nat, user: bool)
    requires Sizes(s) && RunOf(s, p, n, user)
    ensures RangeTables(s, p, n) == {}
  {
    forall i: nat | i < TABLE_SIZE && n > 0 && 1024 * i < p + n && p < 1024 * i + 1024 ensures s.pd[i].flags.present {
      var v := if 1024 * i < p then p else 1024 * i;
      assert TableOf(v) == i && Usable(s, v, user);
    }
  }

  // ---- which tables the search makes, told from the space before it ----

  /** The page can be used once its table is there. */
  predicate Open(s: Space, v: nat, user: bool)
    requires |s.pd| == TABLE_SIZE && |s.pt| == TABLE_SIZE * TABLE_SIZE
  {
    v < SELF_MAP * TABLE_SIZE && (Mapped(s.pd, v) ==> Usable(s, v, user))
  }

  function FirstTable(user: bool): nat {
    if user then 0 else KERNEL_FIRST
  }

  /** A run of `n` pages ends in table `d`. */
  ghost predicate RunEndsIn(s: Space, n: nat, user: bool, d: nat)
    requires Sizes(s)
  {
    n > 0 && exists p: nat :: EndsIn(p, n, user, d) && RunOf(s, p, n, user)
  }

  /** The same, of pages that can be used once their tables are there. */
  ghost predicate OpenRunEndsIn(s: Space, n: nat, user: bool, d: nat)
    requires Sizes(s)
  {
    n > 0 && exists p: nat :: EndsIn(p, n, user, d) && forall v: nat :: p <= v < p + n ==> Open(s, v, user)
  }

  predicate EndsIn(p: nat, n: nat, user: bool, d: nat) {
    1024 * FirstTable(user) <= p && 1024 * d < p + n <= 1024 * d + 1024
  }

  /** The search stops in table `d`: for up to a table of pages, at a missing table or at a run; for more, at a run that
      counts the missing tables in. */
  ghost predicate StopsIn(s: Space, n: nat, user: bool, d: nat)
    requires Sizes(s)
  {
    d < SELF_MAP
    && if n <= TABLE_SIZE then !s.pd[d].flags.present || RunEndsIn(s, n, user, d) else OpenRunEndsIn(s, n, user, d)
  }

  /** How far the search has looked when it answers page `p`: to before the end of the run there, or, when the run is a table
      it has just made, to before that. */
  function SearchedTo(s: Space, p: nat, n: nat): nat
    requires |s.pd| == TABLE_SIZE && n > 0
  {
    if n <= TABLE_SIZE && p / 1024 < TABLE_SIZE && !s.pd[p / 1024].flags.present then p else p + n - 1
  }

  /** The tables the search makes: the missing ones up to the first it stops in. */
  ghost function SearchTables(s: Space, n: nat, user: bool): set<nat>
    requires Sizes(s)
  {
    set i: nat | FirstTable(user) <= i < SELF_MAP && !s.pd[i].flags.present
                 && forall d: nat :: FirstTable(user) <= d < i ==> !StopsIn(s, n, user, d)
  }

  /** The search answers address 0: there is a run at page 0, counting a missing table in. */
  ghost predicate ZeroRun(s: Space, n: nat)
    requires Sizes(s)
  {
    && n <= SELF_MAP * TABLE_SIZE && (n == 0 ==> !s.pd[0].flags.present)
    && forall v: nat :: v < n ==> Open(s, v, true)
  }

  /** The tables made are the missing ones from the first to before `hi`, and the search has not stopped before `d`. */
  ghost predicate Progress(s: Space, t: Space, n: nat, user: bool, d: nat, hi: nat)
    requires Sizes(s) && Sizes(t)
  {
    && FirstTable(user) <= d <= hi <= SELF_MAP
    && (forall i: nat :: i in MadeTables(s, t) <==> FirstTable(user) <= i < hi && !s.pd[i].flags.present)
    && (forall i: nat :: FirstTable(user) <= i < hi ==> t.pd[i].flags.present)
    && (forall k: nat :: FirstTable(user) <= k < d ==> !StopsIn(s, n, user, k))
    && (n <= TABLE_SIZE ==> t == s)
  }

  lemma ProgressStart(s: Space, n: nat, user: bool)
    requires Sizes(s)
    ensures Progress(s, s, n, user, FirstTable(user), FirstTable(user))
  {
  }

  /** A table that was there, or is made for a search that goes on. */
  lemma ProgressTable(s: Space, t: Space, n: nat, user: bool, d: nat, flags: Flags)
    requires Sizes(s) && Sizes(t) && Progress(s, t, n, user, d, d) && d < SELF_MAP && Grown(s, t, user) && flags.user == user
    ensures t.pd[d].flags.present ==> Progress(s, t, n, user, d, d + 1)
    ensures !t.pd[d].flags.present && n > TABLE_SIZE ==> Progress(s, WithTable(t, d, flags), n, user, d, d + 1)
  {
    hide StopsIn, ClaimPage;
    assert t.pd[d].flags.present && d !in MadeTables(s, t) ==> s.pd[d].flags.present;
  }

  /** For up to a table of pages a new table ends the search. */
  lemma NewTableStops(s: Space, t: Space, n: nat, user: bool, d: nat, flags: Flags)
    requires Sizes(s) && Sizes(t) && Progress(s, t, n, user, d, d) && d < SELF_MAP && n <= TABLE_SIZE
    requires !t.pd[d].flags.present && flags.user == user
    ensures MadeTables(s, WithTable(t, d, flags)) == SearchTables(s, n, user)
    ensures user && d > 0 && n == 0 ==> !ZeroRun(s, n)
  {
    hide ClaimPage, RunEndsIn, OpenRunEndsIn;
    assert StopsIn(s, n, user, d);
    forall i: nat ensures i in MadeTables(s, WithTable(t, d, flags)) <==> i in SearchTables(s, n, user) {
      assert i < d && i >= FirstTable(user) ==> t.pd[i].flags.present;
    }
  }

  /** What can be used in a table that is there now is what could be used once it was there. */
  lemma OpenIsUsable(s: Space, t: Space, user: bool, v: nat)
    requires Sizes(s) && Sizes(t) && Grown(s, t, user) && v < SELF_MAP * TABLE_SIZE && t.pd[TableOf(v)].flags.present
    ensures Usable(t, v, user) <==> Open(s, v, user)
  {
  }

  /** A table without the end of a run does not stop the search. */
  lemma ProgressStep(s: Space, t: Space, n: nat, user: bool, d: nat, found: nat)
    requires Sizes(s) && Sizes(t) && Grown(s, t, user) && d < SELF_MAP && Progress(s, t, n, user, d, d + 1)
    requires Scanned(t, 1024 * FirstTable(user), 1024 * d + 1024, n, user, found)
    ensures Progress(s, t, n, user, d + 1, d + 1)
  {
    hide Grown, MadeTables, RunOf;
    if n > TABLE_SIZE {
      NoOpenRun(s, t, n, user, d);
    } else {
      assert !RunEndsIn(s, n, user, d);
    }
  }

  lemma NoOpenRun(s: Space, t: Space, n: nat, user: bool, d: nat)
    requires Sizes(s) && Sizes(t) && Grown(s, t, user) && n > 0 && d < SELF_MAP
    requires forall i: nat :: FirstTable(user) <= i <= d ==> t.pd[i].flags.present
    requires NoRun(t, 1024 * FirstTable(user), 1024 * d + 1024, n, user)
    ensures !OpenRunEndsIn(s, n, user, d)
  {
    hide Grown, Usable;
    forall p: nat | EndsIn(p, n, user, d) ensures exists v: nat :: p <= v < p + n && !Open(s, v, user) {
      assert !RunOf(t, p, n, user);
      var v: nat :| p <= v < p + n && !Usable(t, v, user);
      OpenIsUsable(s, t, user, v);
    }
  }

  /** A run that ends in the table does. */
  lemma RunStops(s: Space, t: Space, n: nat, user: bool, d: nat, p: nat)
    requires Sizes(s) && Sizes(t) && Grown(s, t, user) && d < SELF_MAP && Progress(s, t, n, user, d, d + 1)
    requires n > 0 && RunOf(t, p, n, user) && EndsIn(p, n, user, d)
    ensures MadeTables(s, t) == SearchTables(s, n, user)
  {
    hide Grown;
    assert StopsIn(s, n, user, d) by {
      if n > TABLE_SIZE {
        forall v: nat | p <= v < p + n ensures Open(s, v, user) {
          assert Usable(t, v, user);
          OpenIsUsable(s, t, user, v);
        }
      }
    }
    hide StopsIn, RunOf;
  }

  /** A search that stops nowhere has made every missing table. */
  lemma NeverStops(s: Space, t: Space, n: nat, user: bool)
    requires Sizes(s) && Sizes(t) && Progress(s, t, n, user, SELF_MAP, SELF_MAP)
    ensures MadeTables(s, t) == SearchTables(s, n, user)
    ensures user && n == 0 ==> !ZeroRun(s, n)
  {
    hide StopsIn;
  }

  lemma ZeroFromRun(s: Space, t: Space, n: nat)
    requires Sizes(s) && Sizes(t) && Grown(s, t, true) && RunOf(t, 0, n, true) && (n == 0 ==> !s.pd[0].flags.present)
    ensures ZeroRun(s, n)
  {
    hide Grown;
    forall v: nat | v < n ensures Open(s, v, true) {
      assert Usable(t, v, true);
      OpenIsUsable(s, t, true, v);
    }
    assert n > 0 ==> Usable(t, n - 1, true);
  }

  /** A run whose last page is page `i` of table `d`, the first to be long enough, is at page 0 exactly when there is a
      run there. */
  lemma HitZero(s: Space, t: Space, n: nat, d: nat, i: nat)
    requires Sizes(s) && Sizes(t) && Grown(s, t, true) && d < SELF_MAP && Progress(s, t, n, true, d, d + 1)
    requires i < TABLE_SIZE && 0 < n <= 1024 * d + i + 1
    requires NoRun(t, 0, 1024 * d + i, n, true) && RunOf(t, 1024 * d + i + 1 - n, n, true)
    ensures ZeroRun(s, n) <==> n == 1024 * d + i + 1
  {
    hide Grown, RunOf, NoRun, ZeroRun, StopsIn;
    if n == 1024 * d + i + 1 {
      ZeroFromRun(s, t, n);
    } else {
      NotZero(s, t, n, 1024 * d + i);
    }
  }

  /** A new table that ends the search is at page 0 exactly when there is a run there. */
  lemma NewTableZero(s: Space, n: nat, d: nat, found: nat)
    requires Sizes(s) && Progress(s, s, n, true, d, d) && d < SELF_MAP && n <= TABLE_SIZE && !s.pd[d].flags.present
    requires Scanned(s, 0, 1024 * d, n, true, found)
    ensures ZeroRun(s, n) <==> d == 0
  {
    if d > 0 && n > 0 {
      NotZero(s, s, n, 1024 * d);
    }
  }

  lemma HitSearched(s: Space, t: Space, n: nat, user: bool, d: nat, i: nat)
    requires Sizes(s) && Sizes(t) && Progress(s, t, n, user, d, d + 1) && i < TABLE_SIZE && 0 < n <= 1024 * d + i + 1
    requires 1024 * FirstTable(user) + n <= 1024 * d + i + 1
    ensures SearchedTo(s, 1024 * d + i + 1 - n, n) == 1024 * d + i
  {
    hide StopsIn;
    var p := 1024 * d + i + 1 - n;
    assert FirstTable(user) <= p / 1024 < d + 1;
  }

  lemma NeverZero(s: Space, t: Space, n: nat, found: nat)
    requires Sizes(s) && Sizes(t) && Grown(s, t, true) && Progress(s, t, n, true, SELF_MAP, SELF_MAP)
    requires Scanned(t, 0, 1024 * SELF_MAP, n, true, found)
    ensures !ZeroRun(s, n)
  {
    hide Grown, StopsIn;
    if 0 < n <= SELF_MAP * TABLE_SIZE {
      NotZero(s, t, n, SELF_MAP * TABLE_SIZE);
    }
  }

  lemma NotZero(s: Space, t: Space, n: nat, pos: nat)
    requires Sizes(s) && Sizes(t) && Grown(s, t, true) && 0 < n <= pos && NoRun(t, 0, pos, n, true)
    requires forall i: nat :: 1024 * i < n && i < SELF_MAP ==> t.pd[i].flags.present
    ensures !ZeroRun(s, n)
  {
    hide Grown, Usable;
    assert !RunOf(t, 0, n, true);
    var v: nat :| v < n && !Usable(t, v, true);
    if v < SELF_MAP * TABLE_SIZE {
      OpenIsUsable(s, t, true, v);
    }
  }

  // ---- a range that is allocated, by the bits of its entries ----

  /** The page has neither bit, if its table is there. */
  predicate PageClear(s: Space, v: nat)
    requires |s.pd| == TABLE_SIZE && |s.pt| == TABLE_SIZE * TABLE_SIZE
  {
    v < 1023 * 1024 && (s.pd[v / 1024].flags.present ==> !s.pt[v].flags.present && !s.pt[v].flags.reserved)
  }

  /** Its table is there, and it has one. */
  predicate PageTaken(s: Space, v: nat)
    requires |s.pd| == TABLE_SIZE && |s.pt| == TABLE_SIZE * TABLE_SIZE
  {
    v < 1023 * 1024 && s.pd[v / 1024].flags.present && (s.pt[v].flags.present || s.pt[v].flags.reserved)
  }

  /** It keeps its entry, if its table was there. */
  predicate PageStays(s: Space, t: Space, v: nat)
    requires |s.pd| == TABLE_SIZE && |s.pt| == TABLE_SIZE * TABLE_SIZE && |t.pd| == TABLE_SIZE && |t.pt| == TABLE_SIZE * TABLE_SIZE
  {
    v < 1023 * 1024 && s.pd[v / 1024].flags.present ==> t.pd[v / 1024].flags.present && t.pt[v] == s.pt[v]
  }

  ghost predicate WereClear(s: Space, p: nat, n: nat)
    requires Sizes(s)
  {
    forall v :: p <= v < p + n ==> PageClear(s, v)
  }

  ghost predicate AreTaken(s: Space, p: nat, n: nat)
    requires Sizes(s)
  {
    forall v :: p <= v < p + n ==> PageTaken(s, v)
  }

  ghost predicate OthersStay(s: Space, t: Space, p: nat, n: nat)
    requires Sizes(s) && Sizes(t)
  {
    forall v: nat :: !(p <= v < p + n) ==> PageStays(s, t, v)
  }

  predicate RangesApart(p: nat, n: nat, q: nat, m: nat) {
    n == 0 || m == 0 || p + n <= q || q + m <= p
  }

  lemma TakenNotClear(s: Space, t: Space, p: nat, n: nat, q: nat, m: nat)
    requires Sizes(s) && Sizes(t) && AreTaken(s, p, n) && WereClear(s, q, m) && OthersStay(s, t, q, m)
    ensures RangesApart(p, n, q, m) && AreTaken(t, p, n)
  {
    var first := if p < q then q else p;
    assert p <= first < p + n && q <= first < q + m ==> PageTaken(s, first) && PageClear(s, first);
    forall v | p <= v < p + n ensures !(q <= v < q + m) && PageTaken(t, v) {
      assert PageTaken(s, v) && !PageClear(s, v);
      assert PageStays(s, t, v);
    }
  }

  lemma ClearBefore(s: Space, grown: Space, p: nat, n: nat, user: bool)
    requires Sizes(s) && Sizes(grown) && (s == grown || Grown(s, grown, user))
    requires forall v :: p <= v < p + n ==> Mappable(grown, v, user)
    ensures WereClear(s, p, n)
  {
    forall v | p <= v < p + n ensures PageClear(s, v) {
      assert Mappable(grown, v, user) && TableOf(v) == v / 1024;
    }
  }

  lemma PlacedStays(s: Space, grown: Space, t: Space, p: nat, n: nat, e: Entry)
    requires Sizes(s) && Sizes(grown) && Sizes(t) && (s == grown || Grown(s, grown, e.flags.user)) && Placed(grown, t, p, n, e)
    requires e.flags.reserved
    ensures AreTaken(t, p, n) && OthersStay(s, t, p, n)
  {
    forall v | p <= v < p + n ensures PageTaken(t, v) {
      assert Mapped(t.pd, v) && TableOf(v) == v / 1024;
    }
    forall v: nat | !(p <= v < p + n) ensures PageStays(s, t, v) {
      assert TableOf(v) == v / 1024 && (v < 1023 * 1024 && s.pd[v / 1024].flags.present ==> Mapped(grown.pd, v));
    }
  }

  lemma GrownStays(s: Space, grown: Space, p: nat, user: bool)
    requires Sizes(s) && Sizes(grown) && (s == grown || Grown(s, grown, user))
    ensures OthersStay(s, grown, p, 0)
  {
    forall v: nat ensures PageStays(s, grown, v) {
      assert TableOf(v) == v / 1024;
    }
  }

  lemma EagerStaysPut(s: Space, grown: Space, p: nat, flags: Flags)
    requires Sizes(s) && Sizes(grown) && (s == grown || Grown(s, grown, flags.user)) && p < SELF_MAP * TABLE_SIZE
    requires flags.present && Mappable(grown, p, flags.user)
    ensures Sizes(EagerPage(grown, p, flags))
    ensures AreTaken(EagerPage(grown, p, flags), p, 1) && OthersStay(s, EagerPage(grown, p, flags), p, 1)
  {
    forall v: nat | v != p ensures PageStays(s, EagerPage(grown, p, flags), v) {
      assert TableOf(v) == v / 1024 && (v < 1023 * 1024 && s.pd[v / 1024].flags.present ==> Mapped(grown.pd, v));
    }
  }

  // ---- freeing a range ----

  /** The page has an entry that frees: present or reserved, in a table that is present. */
  predicate Held(s: Space, v: nat)
    requires |s.pd| == TABLE_SIZE && |s.pt| == TABLE_SIZE * TABLE_SIZE
  {
    Mapped(s.pd, v) && s.pt[v].flags.Allocated()
  }

  /** Pages `[p, p + n)` were held and are empty now; everything else is as it was. */
  ghost predicate Vacated(s: Space, t: Space, p: nat, n: nat)
    requires Sizes(s) && Sizes(t)
  {
    && t.pd == s.pd
    && (forall v :: p <= v < p + n ==> Held(s, v) && t.pt[v] == EMPTY)
    && (forall v :: 0 <= v < |s.pt| && !(p <= v < p + n) ==> t.pt[v] == s.pt[v])
  }

  lemma VacatedNext(s: Space, t: Space, p: nat, n: nat, arena: set<int>)
    requires Sizes(s) && Sizes(t) && Vacated(s, t, p, n) && p + n < SELF_MAP * TABLE_SIZE
    ensures Held(t, p + n) <==> Held(s, p + n)
    ensures Held(t, p + n) ==> Vacated(s, Released(t, p + n), p, n + 1)
    ensures Mapped(t.pd, p + n) && Inv(t, arena) ==> Inv(Released(t, p + n), arena)
  {
    if Mapped(t.pd, p + n) && Inv(t, arena) {
      ReleasedKeeps(t, p + n, arena);
    }
  }

  /** The pages before `p + k` were freed; page `p + k` was not held. */
  ghost predicate StopsAt(s: Space, t: Space, p: nat, k: nat)
    requires Sizes(s) && Sizes(t)
  {
    Vacated(s, t, p, k) && p + k < SELF_MAP * TABLE_SIZE && !Held(s, p + k)
  }

  lemma FaultOutcome(s: Space, v: nat, arena: set<int>)
    requires Inv(s, arena) && Mapped(s.pd, v) && s.pt[v].flags.mapOnAccess
    ensures Answer(ClaimPage(s.free)) != 0 <==> exists f :: FreePage(s.free, f)
    ensures Answer(ClaimPage(s.free)) == 0 ==> Left(s.free, ClaimPage(s.free)) == s.free
    ensures Answer(ClaimPage(s.free)) != 0 ==> Inv(Faulted(s, v), arena) && Backed(s, Faulted(s, v), v)
  {
    hide Backed;
    ClaimPageIsExact(s.free);
    if ClaimPage(s.free).Fit? {
      FaultedFields(s, v);
      FaultedKeeps(s, v, arena);
    }
  }

  lemma VacatedNone(s: Space, p: nat)
    requires Sizes(s)
    ensures Vacated(s, s, p, 0)
  {
  }
}

/** The address space object: the directory, the tables and the free list, changed in place by each call. */
module VirtualMemory {
  import opened Bytes
  import opened FreeList
  import opened Paging

  datatype Search = Run(address: nat) | NoRunLeft
  datatype Allocation = At(address: nat) | Null | Halted
  datatype Release = AllFreed | NotAllocated | NoTable

  /** A call of the kernel's interface. */
  datatype Call = Alloc(address: nat, n: nat, flags: Flags) | Fault(protection: bool, address: nat) | FreePages(address: nat, n: nat)

  /** Addresses fit in 32 bits and page ranges end below the self-map slot. */
  predicate CallOk(c: Call) {
    match c
    case Alloc(a, n, _) => a < 0x1_0000_0000 && n < 0x1_0000_0000 && (a != 0 ==> a / 4096 + n <= SELF_MAP * TABLE_SIZE)
    case Fault(_, a) => a < 0x1_0000_0000
    case FreePages(a, n) => a / 4096 + n <= SELF_MAP * TABLE_SIZE
  }

  /** The answer is null: the address is not page-aligned, or the run that is found for it is at page 0. */
  ghost predicate NullAnswer(s: Space, address: nat, n: nat, user: bool)
    requires Sizes(s)
  {
    if address == 0 then user && ZeroRun(s, n) else Rem(address, PAGE_SIZE) != 0
  }

  /** How many pages a call asks for, told from the space before it: one for each table it makes, and one for an eager
      page. A page fault asks for one too, but looks at the answer. */
  ghost function Wanted(s: Space, c: Call): nat
    requires Sizes(s)
  {
    match c
    case Alloc(a, n, request) =>
      var tables := if a == 0 then |SearchTables(s, n, request.user)|
                    else if Rem(a, PAGE_SIZE) != 0 then 0 else |RangeTables(s, a / 4096, n)|;
      tables + if request.present && n == 1 && !NullAnswer(s, a, n, request.user) then 1 else 0
    case _ => 0
  }

  ghost predicate Enough(s: Space, c: Call)
    requires Sizes(s)
  {
    Wanted(s, c) <= PageCount(s.free)
  }

  lemma NextConserving(s: Space, t: Space, c: Call, arena: set<int>)
    requires Sizes(s) && Sizes(t) && (Inv(s, arena) ==> (Inv(t, arena) <==> Enough(s, c)))
    ensures Conserving(s, arena) ==> (Conserving(t, arena) <==> Enough(s, c))
  {
    hide Enough, Inv;
    if Inv(t, arena) {
      Conserved(t, arena);
    }
  }

  class AddressSpace {
    var free: seq<MemoryBlock>
    const pd: array<Entry>
    const pt: array<Entry>
    ghost const arena: set<int>

    ghost predicate Valid() {
      pd.Length == TABLE_SIZE && pt.Length == TABLE_SIZE * TABLE_SIZE && pd != pt
    }

    ghost function View(): (s: Space)
      requires Valid()
      reads this, pd, pt
      ensures Sizes(s)
    {
      Space(free, pd[..], pt[..])
    }

    ghost predicate Good()
      requires Valid()
      reads this, pd, pt
    {
      Inv(View(), arena)
    }

    /** A fresh directory in frame `directory`, mapped to itself through its last slot. */
    constructor (blocks: seq<MemoryBlock>, directory: nat)
      requires Canonical(blocks) && !Free(blocks, 0) && FrameOk(blocks, directory)
      ensures Valid() && fresh(pd) && fresh(pt) && Good()
      ensures free == blocks && arena == FreeSet(blocks) + PageBytes(directory)
    {
      free := blocks;
      var dir := new Entry[TABLE_SIZE](_ => EMPTY);
      var tables := new Entry[TABLE_SIZE * TABLE_SIZE](_ => EMPTY);
      dir[SELF_MAP] := Entry(directory, Flags(true, true, false, false, false));
      pd, pt := dir, tables;
      arena := FreeSet(blocks) + PageBytes(directory);
      new;
      NewSpace(View(), blocks, directory);
    }

    method AllocatePhysicalPage() returns (frame: nat)
      requires Valid()
      modifies this`free
      ensures Valid() && frame == Answer(ClaimPage(old(free))) && free == Left(old(free), ClaimPage(old(free)))
    {
      var c := ClaimPage(free);
      frame, free := Answer(c), Left(free, c);
    }

    method CreateNewPageTable(i: nat, flags: Flags)
      requires Valid() && i < SELF_MAP
      modifies this`free, pd, pt
      ensures Valid() && View() == WithTable(old(View()), i, flags)
    {
      ghost var s := View();
      var frame := AllocatePhysicalPage();
      pd[i] := Entry(frame, flags.(present := true, rw := true, reserved := false, mapOnAccess := false));
      ghost var before := pt[..];
      for k := 0 to TABLE_SIZE
        invariant free == Left(s.free, ClaimPage(s.free)) && pd[..] == WithTable(s, i, flags).pd
        invariant forall v :: 0 <= v < pt.Length ==> pt[v] == if 1024 * i <= v < 1024 * i + k then EMPTY else before[v]
      {
        pt[1024 * i + k] := EMPTY;
      }
      assert pt[..] == WithTable(s, i, flags).pt;
    }

    /** Scans one table for a run that ends in it. */
    method ScanTable(d: nat, n: nat, user: bool, start: nat, found0: nat) returns (hit: bool, found: nat, i: nat)
      requires Valid() && d < SELF_MAP && pd[d].flags.present && pd[d].flags.user == user
      requires Scanned(View(), start, 1024 * d, n, user, found0)
      ensures hit ==> i < TABLE_SIZE && 0 < n <= 1024 * d + i + 1 && RunOf(View(), 1024 * d + i + 1 - n, n, user)
      ensures hit ==> start + n <= 1024 * d + i + 1 && NoRun(View(), start, 1024 * d + i, n, user)
      ensures !hit ==> Scanned(View(), start, 1024 * d + 1024, n, user, found)
    {
      hide Scanned, RunOf, NoRun;
      found, i := found0, 0;
      ghost var s := View();
      while i < TABLE_SIZE
        invariant i <= TABLE_SIZE && Scanned(s, start, 1024 * d + i, n, user, found)
      {
        ScannedNext(s, start, 1024 * d + i, n, user, found);
        ScannedMeans(s, start, 1024 * d + i, n, user, found);
        assert TableOf(1024 * d + i) == d;
        if pt[1024 * d + i].flags.Allocated() {
          found := 0;
        } else {
          found := found + 1;
          if found == n {
            return true, found, i;
          }
        }
        i := i + 1;
      }
      hit := false;
    }

    /** Finds `n` consecutive usable pages, making tables on the way, or shows that there is no such run. Which tables are
        made, and whether the run is at page 0, is told from the space before. */
    method GetUnmappedPages(n: nat, flags: Flags) returns (r: Search)
      requires Valid() && n < 0x1_0000_0000
      modifies this`free, pd, pt
      ensures Valid() && Grown(old(View()), View(), flags.user)
      ensures Sound(old(View()), arena) ==> Sound(View(), arena)
      ensures Inv(old(View()), arena) ==> Account(old(View()), View(), arena)
      ensures MadeTables(old(View()), View()) == SearchTables(old(View()), n, flags.user)
      ensures r == Run(0) <==> flags.user && ZeroRun(old(View()), n)
      ensures match r
        case Run(a) => Rem(a, PAGE_SIZE) == 0 && (flags.user || a / 4096 >= KERNEL_FIRST * TABLE_SIZE)
                       && a / 4096 + n <= SELF_MAP * TABLE_SIZE && RunOf(View(), a / 4096, n, flags.user)
                       && (n > 0 ==> NoRun(View(), 1024 * FirstTable(flags.user), SearchedTo(old(View()), a / 4096, n), n, flags.user))
        case NoRunLeft => Exhausted(View(), n, flags.user)
    {
      hide Sound, Inv, Account, Scanned, NoRun, RunOf, WithTable, Rem, Trunc32, Grown, Progress, ZeroRun, MadeTables, SearchTables;
      var user := flags.user;
      var first := FirstTable(user);
      var found := 0;
      ghost var s := View();
      StartOfScan(s, 1024 * first, n, user);
      ProgressStart(s, n, user);
      if Inv(s, arena) {
        AccountStart(s, arena);
      }
      var d := first;
      while d < SELF_MAP
        invariant first <= d <= SELF_MAP && Grown(s, View(), user)
        invariant (Sound(s, arena) ==> Sound(View(), arena)) && (Inv(s, arena) ==> Account(s, View(), arena))
        invariant Scanned(View(), 1024 * first, 1024 * d, n, user, found) && Progress(s, View(), n, user, d, d)
      {
        var run := TableInPlace(d, n, flags, found, s);
        if run {
          return Run(d * 0x40_0000);
        }
        if user != pd[d].flags.user {
          ScannedSkip(View(), 1024 * first, d, n, user, found);
          found := 0;
        } else {
          var hit, found', i := ScanTable(d, n, user, 1024 * first, found);
          if hit {
            RunStops(s, View(), n, user, d, 1024 * d + i + 1 - n);
            if user {
              HitZero(s, View(), n, d, i);
            }
            HitSearched(s, View(), n, user, d, i);
            RunAddress(d, i, n);
            PageNumber(1024 * d + i + 1 - n);
            return Run(Trunc32(Trunc32(d * 0x40_0000) + Trunc32(Trunc32(i - (n - 1)) * 4096)));
          }
          found := found';
        }
        ProgressStep(s, View(), n, user, d, found);
        d := d + 1;
      }
      NothingFound(s, n, user, found);
      r := NoRunLeft;
    }

    lemma NothingFound(s: Space, n: nat, user: bool, found: nat)
      requires Valid() && Sizes(s) && Grown(s, View(), user) && Progress(s, View(), n, user, SELF_MAP, SELF_MAP)
      requires Scanned(View(), 1024 * FirstTable(user), 1024 * SELF_MAP, n, user, found)
      ensures Exhausted(View(), n, user) && MadeTables(s, View()) == SearchTables(s, n, user) && (user ==> !ZeroRun(s, n))
    {
      hide Grown, StopsIn, ZeroRun;
      ScannedMeans(View(), 1024 * FirstTable(user), 1024 * SELF_MAP, n, user, found);
      NeverStops(s, View(), n, user);
      if user {
        NeverZero(s, View(), n, found);
      }
    }

    /** Makes table `d` if it is missing; a new table is a run by itself if it is long enough. */
    method TableInPlace(d: nat, n: nat, flags: Flags, found: nat, ghost was: Space) returns (run: bool)
      requires Valid() && d < SELF_MAP && Sizes(was) && Grown(was, View(), flags.user)
      requires Scanned(View(), 1024 * FirstTable(flags.user), 1024 * d, n, flags.user, found)
      requires Progress(was, View(), n, flags.user, d, d)
      modifies this`free, pd, pt
      ensures Valid() && Grown(was, View(), flags.user)
      ensures Sound(old(View()), arena) ==> Sound(View(), arena)
      ensures Account(was, old(View()), arena) ==> Account(was, View(), arena)
      ensures Scanned(View(), 1024 * FirstTable(flags.user), 1024 * d, n, flags.user, found)
      ensures pd[d].flags.present && (!run ==> Progress(was, View(), n, flags.user, d, d + 1))
      ensures run ==> n <= TABLE_SIZE && Rem(d * 0x40_0000, PAGE_SIZE) == 0 && d * 0x40_0000 / 4096 == 1024 * d
      ensures run ==> RunOf(View(), 1024 * d, n, flags.user)
      ensures run && n > 0 ==> NoRun(View(), 1024 * FirstTable(flags.user), SearchedTo(was, 1024 * d, n), n, flags.user)
      ensures run ==> MadeTables(was, View()) == SearchTables(was, n, flags.user)
      ensures run && flags.user ==> (ZeroRun(was, n) <==> d == 0)
    {
      hide Sound, Account, Scanned, NoRun, RunOf, Rem, Grown, MadeTables, SearchTables, ZeroRun, StopsIn;
      ghost var s := View();
      ProgressTable(was, s, n, flags.user, d, flags);
      if !pd[d].flags.present {
        WithTableGrows(was, s, d, flags);
        if Sound(s, arena) {
          WithTableSound(s, d, flags, arena);
        }
        if Account(was, s, arena) {
          AccountTable(was, s, d, flags, arena);
        }
        ScannedGrown(s, 1024 * FirstTable(flags.user), d, n, flags.user, found, flags);
        if n <= TABLE_SIZE {
          NewTableStops(was, s, n, flags.user, d, flags);
          if flags.user {
            NewTableZero(was, n, d, found);
          }
        }
        CreateNewPageTable(d, flags);
        if n <= TABLE_SIZE {
          NewTableIsARun(View(), d, n, flags.user);
          ScannedMeans(View(), 1024 * FirstTable(flags.user), 1024 * d, n, flags.user, found);
          return true;
        }
      }
      run := false;
    }

    method MapPage(v: nat, physical: nat, flags: Flags) returns (ok: bool)
      requires Valid() && v < SELF_MAP * TABLE_SIZE
      modifies this`free, pd, pt
      ensures Valid() && ok == Mappable(old(View()), v, flags.user)
      ensures View() == if ok then WithMapping(old(View()), v, Entry(physical, flags)) else old(View())
    {
      var d := v / 1024;
      if !pd[d].flags.present {
        CreateNewPageTable(d, flags);
      } else if flags.user && !pd[d].flags.user {
        return false;
      }
      if pt[v].flags.Allocated() {
        return false;
      }
      pt[v] := Entry(physical, flags);
      ok := true;
    }

    method EagerTurn(p: nat, flags: Flags) returns (ok: bool)
      requires Valid() && p < SELF_MAP * TABLE_SIZE
      modifies this`free, pd, pt
      ensures Valid()
      ensures ok == Mappable(old(View()), p, flags.user) && (ok ==> View() == EagerPage(old(View()), p, flags))
    {
      hide WithMapping, ClaimPage;
      var frame := AllocatePhysicalPage();
      ok := MapPage(p, frame, flags);
    }

    /** The branch for present pages: the address does not advance, so a second round always fails. */
    method MapEager(p: nat, n: nat, flags: Flags) returns (ok: bool)
      requires Valid() && flags.present && (n > 0 ==> p < SELF_MAP * TABLE_SIZE)
      modifies this`free, pd, pt
      ensures Valid() && ok == (n == 0 || (n == 1 && Mappable(old(View()), p, flags.user)))
      ensures ok ==> View() == if n == 0 then old(View()) else EagerPage(old(View()), p, flags)
    {
      hide WithMapping, Mappable, ClaimPage, Canonical, Free, Rem;
      ghost var s := View();
      for i := 0 to n
        invariant i == 0 ==> View() == s
        invariant i > 0 ==> i == 1 && Mappable(s, p, flags.user) && View() == EagerPage(s, p, flags)
      {
        if i == 1 {
          EagerTwice(s, p, flags);
        }
        ok := EagerTurn(p, flags);
        if !ok {
          return;
        }
      }
      ok := true;
    }

    /** The branch for map-on-access pages: all of them are reserved exactly when all of them could be. */
    method MapLazy(p: nat, n: nat, flags: Flags, ghost was: Space) returns (ok: bool)
      requires Valid() && !flags.present && p + n <= SELF_MAP * TABLE_SIZE
      modifies this`free, pd, pt
      ensures Valid() && (Sound(old(View()), arena) ==> Sound(View(), arena))
      ensures Account(was, old(View()), arena) ==> Account(was, View(), arena)
      ensures ok <==> forall v :: p <= v < p + n ==> Mappable(old(View()), v, flags.user)
      ensures ok ==> Placed(old(View()), View(), p, n, Entry(0, flags.(reserved := true, mapOnAccess := true)))
    {
      hide Sound, Account, Placed, WithMapping;
      ghost var s := View();
      var e := Entry(0, flags.(reserved := true, mapOnAccess := true));
      PlacedNone(s, p, e);
      for i := 0 to n
        invariant (Sound(s, arena) ==> Sound(View(), arena)) && (Account(was, s, arena) ==> Account(was, View(), arena))
        invariant Placed(s, View(), p, i, e)
        invariant forall v :: p <= v < p + i ==> Mappable(s, v, flags.user)
      {
        PlacedNext(s, View(), p, i, e);
        if Sound(View(), arena) && Mappable(View(), p + i, flags.user) {
          MappingSound(View(), p + i, e, arena);
        }
        if Account(was, View(), arena) && Mappable(View(), p + i, flags.user) {
          AccountMapping(was, View(), p + i, e, arena);
        }
        ok := MapPage(p + i, 0, e.flags);
        if !ok {
          return;
        }
      }
      ok := true;
    }

    method PlacePages(p: nat, n: nat, flags: Flags, ghost was: Space) returns (ok: bool)
      requires Valid() && !flags.mapOnAccess && p + n <= SELF_MAP * TABLE_SIZE
      modifies this`free, pd, pt
      ensures Valid() && (Sound(old(View()), arena) ==> !ok || Sound(View(), arena))
      ensures ok <==> (flags.present ==> n <= 1) && forall v :: p <= v < p + n ==> Mappable(old(View()), v, flags.user)
      ensures ok && !flags.present ==> Placed(old(View()), View(), p, n, Entry(0, flags.(reserved := true, mapOnAccess := true)))
      ensures ok && flags.present && n == 1 ==> View() == EagerPage(old(View()), p, flags)
      ensures ok && flags.present && n == 0 ==> View() == old(View())
      ensures ok && Account(was, old(View()), arena) ==>
        && MadeTables(old(View()), View()) == RangeTables(old(View()), p, n)
        && (forall i :: 0 <= i < TABLE_SIZE && old(pd[i].flags.present) ==> pd[i].flags.present)
        && (Inv(View(), arena) <==> |MadeTables(was, View())| + (if flags.present && n == 1 then 1 else 0) <= PageCount(was.free))
    {
      hide Sound, Account, Placed, EagerPage, Mappable, Frames, Lazy, PageCount, MadeTables, RangeTables;
      ghost var s := View();
      if flags.present {
        ok := MapEager(p, n, flags);
        if ok && n == 1 && Sound(s, arena) {
          EagerSound(s, p, flags, arena);
        }
      } else {
        ok := MapLazy(p, n, flags, was);
      }
      if ok && Account(was, s, arena) {
        PlacedAccount(was, s, p, n, flags);
      }
    }

    lemma PlacedAccount(was: Space, s: Space, p: nat, n: nat, flags: Flags)
      requires Valid() && Account(was, s, arena) && !flags.mapOnAccess && p + n <= SELF_MAP * TABLE_SIZE
      requires if flags.present then n <= 1 && (n == 1 ==> Mappable(s, p, flags.user))
               else Placed(s, View(), p, n, Entry(0, flags.(reserved := true, mapOnAccess := true))) && Account(was, View(), arena)
      requires flags.present ==> View() == if n == 1 then EagerPage(s, p, flags) else s
      ensures MadeTables(s, View()) == RangeTables(s, p, n)
      ensures forall i :: 0 <= i < TABLE_SIZE && s.pd[i].flags.present ==> pd[i].flags.present
      ensures Inv(View(), arena) <==> |MadeTables(was, View())| + (if flags.present && n == 1 then 1 else 0) <= PageCount(was.free)
    {
      hide EagerPage, Inv, PageCount, Mappable, Placed;
      if !flags.present {
        PlacedMakes(s, View(), p, n, Entry(0, flags.(reserved := true, mapOnAccess := true)));
        AccountMeans(was, View(), arena);
        PlacedGrows(s, View(), p, n, Entry(0, flags.(reserved := true, mapOnAccess := true)));
      } else if n == 1 {
        EagerMakes(was, s, p, flags, arena);
        AccountEager(was, s, p, flags, arena);
        EagerGrows(s, p, flags);
      } else {
        AccountMeans(was, s, arena);
        assert MadeTables(s, s) == {};
      }
    }

    /** Lazy: the pages come out reserved and map-on-access. Eager: right for one page, never for two or more. Null: the
        address is not page-aligned, or the run found is at page 0. The invariant is kept exactly when there are as many
        free pages as the call asks for. `grown` is the space after the search for an address. */
    method VirtualAlloc(address: nat, n: nat, request: Flags) returns (r: Allocation, ghost grown: Space)
      requires Valid() && CallOk(Alloc(address, n, request))
      modifies this`free, pd, pt
      ensures Valid() && Sizes(grown)
      ensures address != 0 ==> grown == old(View())
      ensures address == 0 ==> Grown(old(View()), grown, request.user)
      ensures Sound(old(View()), arena) && !r.Halted? ==> Sound(View(), arena)
      ensures Inv(old(View()), arena) && !r.Halted? ==>
        (Inv(View(), arena) <==> Wanted(old(View()), Alloc(address, n, request)) <= PageCount(old(free)))
      ensures r.Null? <==> NullAnswer(old(View()), address, n, request.user)
      ensures r.At? ==>
        && WereClear(old(View()), r.address / 4096, n) && AreTaken(View(), r.address / 4096, n)
        && OthersStay(old(View()), View(), r.address / 4096, n)
      ensures var flags := request.(reserved := false, mapOnAccess := false); match r
        case At(a) =>
          && a != 0 && Rem(a, PAGE_SIZE) == 0 && a / 4096 + n <= SELF_MAP * TABLE_SIZE
          && (if address == 0 then RunOf(grown, a / 4096, n, flags.user) else a == address)
          && (address == 0 && n > 0 ==>
                NoRun(grown, 1024 * FirstTable(flags.user), SearchedTo(old(View()), a / 4096, n), n, flags.user))
          && (!flags.present ==> Placed(grown, View(), a / 4096, n, Entry(0, flags.(reserved := true, mapOnAccess := true))))
          && (flags.present ==> n <= 1)
          && (flags.present && n == 1 ==> Mappable(grown, a / 4096, flags.user) && View() == EagerPage(grown, a / 4096, flags))
        case Null => View() == grown && (address == 0 ==> RunOf(grown, 0, n, true))
        case Halted =>
          || (n >= 2 && flags.present)
          || (if address == 0 then Exhausted(grown, n, flags.user)
              else exists v :: address / 4096 <= v < address / 4096 + n && !Mappable(grown, v, flags.user))
    {
      hide Sound, Inv, Account, Placed, EagerPage, Mappable, Exhausted, Rem, RunOf, NoRun, Grown, ZeroRun, MadeTables,
        SearchTables, RangeTables, PageCount;
      var flags := request.(reserved := false, mapOnAccess := false);
      grown := View();
      ghost var s := View();
      if Inv(s, arena) {
        AccountStart(s, arena);
      }
      var va := address;
      if va == 0 {
        var found := GetUnmappedPages(n, flags);
        grown := View();
        match found {
          case NoRunLeft => return Halted, grown;
          case Run(a) =>
            va := a;
            RunMappable(grown, a / 4096, n, flags.user);
        }
        if va == 0 {
          if Inv(s, arena) {
            AccountMeans(s, grown, arena);
          }
          return Null, grown;
        }
      } else if Rem(va, PAGE_SIZE) != 0 {
        return Null, grown;
      }
      var ok := PlacePages(va / 4096, n, flags, s);
      r := if ok then At(va) else Halted;
      if ok {
        RangeIsTaken(s, grown, va / 4096, n, flags);
      }
      if Inv(s, arena) && ok {
        MadeInAll(s, grown, va / 4096, n, flags.user, address == 0);
      }
    }

    lemma RangeIsTaken(s: Space, grown: Space, p: nat, n: nat, flags: Flags)
      requires Valid() && Sizes(s) && Sizes(grown) && (s == grown || Grown(s, grown, flags.user))
      requires (forall v :: p <= v < p + n ==> Mappable(grown, v, flags.user)) && (flags.present ==> n <= 1)
      requires !flags.present ==> Placed(grown, View(), p, n, Entry(0, flags.(reserved := true, mapOnAccess := true)))
      requires flags.present && n == 1 ==> p < SELF_MAP * TABLE_SIZE && View() == EagerPage(grown, p, flags)
      requires flags.present && n == 0 ==> View() == grown
      ensures WereClear(s, p, n) && AreTaken(View(), p, n) && OthersStay(s, View(), p, n)
    {
      hide Placed, EagerPage, Mappable, Grown;
      ClearBefore(s, grown, p, n, flags.user);
      if !flags.present {
        PlacedStays(s, grown, View(), p, n, Entry(0, flags.(reserved := true, mapOnAccess := true)));
      } else if n == 1 {
        assert Mappable(grown, p, flags.user);
        EagerStaysPut(s, grown, p, flags);
      } else {
        GrownStays(s, grown, p, flags.user);
      }
    }

    /** The tables made by a search and by the mapping after it, counted. */
    lemma MadeInAll(s: Space, grown: Space, p: nat, n: nat, user: bool, searched: bool)
      requires Valid() && Sizes(s) && Sizes(grown) && MadeTables(grown, View()) == RangeTables(grown, p, n)
      requires forall i :: 0 <= i < TABLE_SIZE && grown.pd[i].flags.present ==> pd[i].flags.present
      requires if searched then MadeTables(s, grown) == SearchTables(s, n, user) && RunOf(grown, p, n, user) else grown == s
      ensures MadeTables(s, View()) == if searched then SearchTables(s, n, user) else RangeTables(s, p, n)
    {
      hide RunOf;
      if searched {
        RunNeedsNone(grown, p, n, user);
        MadeTwice(s, grown, View());
      }
    }

    /** Backs a map-on-access page with a frame; anything else is not this handler's to fix. In a good space the
        kernel's assertions hold, and no entry seen through the self-map window is map-on-access. */
    method HandlePageFault(protection: bool, address: nat) returns (handled: bool, halted: bool)
      requires Valid() && address < 0x1_0000_0000
      modifies this`free, pd, pt
      ensures Valid()
      ensures old(Good()) ==>
        && Good() && !halted
        && (handled <==> !protection && Mapped(old(pd[..]), address / 4096) && old(pt[address / 4096]).flags.mapOnAccess
                         && exists f :: FreePage(old(free), f))
        && View() == if handled then Faulted(old(View()), address / 4096) else old(View())
      ensures old(Good()) && handled ==> address / 4096 < 1023 * 1024 && Backed(old(View()), View(), address / 4096)
    {
      hide Frames, FreePage, ClaimPage, Faulted;
      var v := address / 4096;
      if protection || !pd[v / 1024].flags.present {
        return false, false;
      }
      var window := v >= SELF_MAP * TABLE_SIZE;
      var entry := if window then pd[v % 1024] else pt[v];
      if !entry.flags.mapOnAccess {
        return false, false;
      }
      if !entry.flags.reserved || entry.flags.present {
        return false, true;
      }
      ghost var s := View();
      if Inv(s, arena) {
        FaultOutcome(s, v, arena);
      }
      handled := BackPage(v, entry);
      halted := false;
    }

    /** Claims a frame for the entry `entry` of page `v`, written first as writable, for the frame to be cleared. */
    method BackPage(v: nat, entry: Entry) returns (handled: bool)
      requires Valid() && v < TABLE_SIZE * TABLE_SIZE
      modifies this`free, pd, pt
      ensures Valid() && handled == (Answer(ClaimPage(old(free))) != 0)
      ensures free == Left(old(free), ClaimPage(old(free)))
      ensures !handled ==> pd[..] == old(pd[..]) && pt[..] == old(pt[..])
      ensures handled && v < SELF_MAP * TABLE_SIZE && entry == old(pt[v]) ==> View() == Faulted(old(View()), v)
    {
      hide ClaimPage;
      ghost var s := View();
      var physical := AllocatePhysicalPage();
      if physical == 0 {
        return false;
      }
      var flags := entry.flags.(reserved := false, mapOnAccess := false, present := true);
      UpdateEntry(v, Entry(physical, flags.(rw := true)));
      if !flags.rw {
        UpdateEntry(v, Entry(physical, flags));
      }
      handled := true;
    }

    /** The entry of page `v`: a directory entry if `v` lies in the self-map window. */
    method UpdateEntry(v: nat, e: Entry)
      requires Valid() && v < TABLE_SIZE * TABLE_SIZE
      modifies pd, pt
      ensures pd[..] == if v >= SELF_MAP * TABLE_SIZE then old(pd[..])[v % 1024 := e] else old(pd[..])
      ensures pt[..] == if v >= SELF_MAP * TABLE_SIZE then old(pt[..]) else old(pt[..])[v := e]
    {
      if v >= SELF_MAP * TABLE_SIZE {
        pd[v % 1024] := e;
      } else {
        pt[v] := e;
      }
    }

    /** Frees a range page by page, stopping at the first page that is not held. */
    method FreeRange(address: nat, n: nat) returns (r: Release)
      requires Valid() && CallOk(FreePages(address, n))
      modifies this`free, pt
      ensures Valid() && (old(Good()) ==> Good())
      ensures var p := address / 4096; match r
        case AllFreed => Vacated(old(View()), View(), p, n)
        case NotAllocated => exists k: nat :: k < n && StopsAt(old(View()), View(), p, k) && Mapped(pd[..], p + k)
        case NoTable => exists k: nat :: k < n && StopsAt(old(View()), View(), p, k) && !Mapped(pd[..], p + k)
    {
      hide Frames, Lazy, Vacated, Freed;
      var p := address / 4096;
      ghost var s := View();
      VacatedNone(s, p);
      for k := 0 to n
        invariant Vacated(s, View(), p, k) && pd[..] == s.pd
        invariant Inv(s, arena) ==> Inv(View(), arena)
      {
        VacatedNext(s, View(), p, k, arena);
        var v := p + k;
        if !pd[v / 1024].flags.present {
          assert StopsAt(s, View(), p, k) && !Mapped(pd[..], p + k);
          return NoTable;
        }
        var entry := pt[v];
        if !entry.flags.Allocated() {
          assert StopsAt(s, View(), p, k) && Mapped(pd[..], p + k);
          return NotAllocated;
        }
        ghost var t := View();
        pt[v] := EMPTY;
        if entry.flags.present {
          free := Freed(free, 0, entry.address, PAGE_SIZE);
        }
        assert View() == Released(t, v);
      }
      r := AllFreed;
    }

    /** Successive allocations, up to the first that gives no range: the ranges are pairwise apart, and none of their pages
        was taken before. */
    method AllocateAll(calls: seq<Call>) returns (ranges: seq<(nat, nat)>)
      requires Valid() && forall c :: c in calls ==> c.Alloc? && CallOk(c)
      modifies this`free, pd, pt
      ensures Valid() && |ranges| <= |calls|
      ensures forall k :: 0 <= k < |ranges| ==> ranges[k].1 == calls[k].n
      ensures |ranges| == |calls| ==> forall k :: 0 <= k < |ranges| ==> AreTaken(View(), ranges[k].0, ranges[k].1)
      ensures forall j, k :: 0 <= j < k < |ranges| ==> RangesApart(ranges[j].0, ranges[j].1, ranges[k].0, ranges[k].1)
    {
      hide AreTaken, WereClear, OthersStay, RangesApart;
      ranges := [];
      for i := 0 to |calls|
        invariant |ranges| == i
        invariant forall k :: 0 <= k < i ==> ranges[k].1 == calls[k].n && AreTaken(View(), ranges[k].0, ranges[k].1)
        invariant forall j, k :: 0 <= j < k < i ==> RangesApart(ranges[j].0, ranges[j].1, ranges[k].0, ranges[k].1)
      {
        assert calls[i] in calls;
        ghost var s := View();
        var r;
        ghost var grown;
        r, grown := VirtualAlloc(calls[i].address, calls[i].n, calls[i].flags);
        if !r.At? {
          return;
        }
        forall k | 0 <= k < i
          ensures RangesApart(ranges[k].0, ranges[k].1, r.address / 4096, calls[i].n) && AreTaken(View(), ranges[k].0, ranges[k].1)
        {
          TakenNotClear(s, View(), ranges[k].0, ranges[k].1, r.address / 4096, calls[i].n);
        }
        ranges := ranges + [(r.address / 4096, calls[i].n)];
      }
    }

    /** One call; false if the kernel halted in it. */
    method Step(c: Call) returns (alive: bool)
      requires Valid() && CallOk(c)
      modifies this`free, pd, pt
      ensures Valid()
      ensures old(Good()) && alive ==> (Good() <==> Wanted(old(View()), c) <= PageCount(old(free)))
    {
      hide Inv, PageCount;
      match c {
        case Alloc(a, n, flags) =>
          ghost var grown;
          var r;
          r, grown := VirtualAlloc(a, n, flags);
          alive := !r.Halted?;
        case Fault(protection, a) =>
          var handled, halted := HandlePageFault(protection, a);
          alive := !halted;
        case FreePages(a, n) =>
          var r := FreeRange(a, n);
          alive := !r.NoTable?;
      }
    }

    /** Any sequence of calls, from a good space. Every state the calls pass through has each frame owned once or free,
        and one and the same arena, exactly when each call finds as many free pages as it asks for. */
    method RunCalls(calls: seq<Call>) returns (alive: bool, ghost history: seq<Space>)
      requires Valid() && Good() && forall c :: c in calls ==> CallOk(c)
      modifies this`free, pd, pt
      ensures Valid() && history != [] && history[0] == old(View()) && history[|history| - 1] == View()
      ensures forall k :: 0 <= k < |history| ==> Sizes(history[k])
      ensures |history| <= |calls| + 1 && (alive ==> |history| == |calls| + 1)
      ensures alive ==>
        ((forall k :: 0 <= k < |calls| ==> Enough(history[k], calls[k])) <==>
         (forall k :: 0 <= k < |history| ==> Conserving(history[k], arena)))
    {
      hide Inv, Conserving, Wanted, PageCount;
      history := [View()];
      Conserved(View(), arena);
      for i := 0 to |calls|
        invariant |history| == i + 1 && history[i] == View() && history[0] == old(View())
        invariant forall k :: 0 <= k <= i ==> Sizes(history[k])
        invariant (forall k :: 0 <= k < i ==> Enough(history[k], calls[k])) <==> forall k :: 0 <= k <= i ==> Conserving(history[k], arena)
      {
        ghost var before := history;
        alive := Step(calls[i]);
        history := history + [View()];
        assert forall k :: 0 <= k <= i ==> history[k] == before[k];
        if !alive {
          return;
        }
        NextConserving(before[i], View(), calls[i], arena);
      }
      alive := true;
    }
  }
}
