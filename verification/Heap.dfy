/** The heap (clib/liballoc.cpp): a doubly linked list of page runs, each with a doubly linked list of allocations in
    address order, both threaded through headers in the memory they manage.

    `HeapModel` is the heap as a value: what the links stand for, and what linking and unlinking a header does to that.
    `Heap` is the allocator, which edits headers in place. */
module HeapModel {
  import opened Bytes
  import opened FreeList

  const MAJOR_SIZE: nat := 24       // sizeof(major_block)
  const MINOR_SIZE: nat := 24       // sizeof(minor_block)
  const WORD: nat := 4              // sizeof(align_t)
  const MIN_PAGES: nat := 16        // l_pageCount

  // ---- alignment with a stored offset (liballoc.cpp:24-42) ----

  /** `ALIGN`, without its store: how far past the word the payload begins. The mask `align - 1` of the source is `Rem`
      for a power of two, and all ones for 0. */
  function AlignOffset(ptr: nat, align: nat): (offset: nat)
  {
    var nptr := Trunc32(ptr + WORD);
    var diff := if align == 0 then nptr else Rem(nptr, align);
    if diff != 0 then Trunc32(align - diff) else 0
  }

  /** An alignment of 0 makes the payload address itself 0, wherever the allocation is. */
  lemma AlignZeroIsNull(ptr: nat)
    ensures Trunc32(ptr + WORD + AlignOffset(ptr, 0)) == 0
  {
  }

  /** Any other alignment gives the least aligned address past the word, less than `align` bytes on. */
  lemma AlignOffsetFits(ptr: nat, align: nat)
    requires 0 < align < 0x1_0000_0000 && ptr + WORD < 0x1_0000_0000
    ensures AlignOffset(ptr, align) < align && Rem(ptr + WORD + AlignOffset(ptr, align), align) == 0
    ensures forall a: nat :: a >= ptr + WORD && Rem(a, align) == 0 ==> a >= ptr + WORD + AlignOffset(ptr, align)
  {
    var x := ptr + WORD;
    var q := Quot(x, align);
    if Rem(x, align) == 0 {
      QuotRemUnique(x, align, q, 0);
    } else {
      MulDistrib(q, 1, align);
      QuotRemUnique(x + AlignOffset(ptr, align), align, q + 1, 0);
      forall a: nat | a >= x && Rem(a, align) == 0 ensures a >= x + AlignOffset(ptr, align) {
        if a < x + AlignOffset(ptr, align) {
          QuotRemUnique(a, align, q, a - q * align);
        }
      }
    }
  }

  /** The size a request is given: room for the offset word and for any alignment. */
  function AllocSize(req: nat, align: nat): nat {
    Trunc32(req + Trunc32(WORD + (align - 1)))
  }

  /** The pages asked of the provider for a request of this size. */
  function PagesFor(size: nat): (pages: nat)
    ensures pages >= MIN_PAGES
  {
    var st := Trunc32(size + MAJOR_SIZE + MINOR_SIZE);
    var pages := if st % 4096 == 0 then st / 4096 else st / 4096 + 1;
    if pages < MIN_PAGES then MIN_PAGES else pages
  }

  /** A request whose sizes do not wrap. */
  predicate Sane(req: nat, align: nat) {
    AlignOk(align) && req + WORD + align + MAJOR_SIZE + MINOR_SIZE <= 0x1_0000_0000
  }

  /** The pages asked for hold the request with both headers, wherever they are, exactly when the sizes do not wrap. */
  lemma PagesHoldIff(req: nat, align: nat)
    requires AlignOk(align) && req < 0x1_0000_0000
    ensures Sane(req, align) <==>
      MAJOR_SIZE + MINOR_SIZE + req + WORD + align - 1 <= 4096 * PagesFor(AllocSize(req, align))
    ensures Sane(req, align) ==> AllocSize(req, align) == req + WORD + align - 1
  {
  }

  /** And no more pages than that, beyond the least the allocator asks for. */
  lemma PagesForLeast(size: nat)
    requires size + 48 < 0x1_0000_0000
    ensures var pages := PagesFor(size);
      pages >= 16 && 4096 * pages >= size + 48 && (pages > 16 ==> 4096 * (pages - 1) < size + 48)
  {
  }

  // ---- runs and allocations ----

  /** An allocation: its header is at `at`, its `size` bytes follow, its payload of `req` bytes begins after the word that
      holds `offset`. */
  datatype Cell = Cell(at: nat, size: nat, req: nat, offset: nat) {
    function Begin(): nat { at + MINOR_SIZE }
    function End(): nat { at + MINOR_SIZE + size }
    function Payload(): nat { at + MINOR_SIZE + WORD + offset }
  }

  /** A run of pages with its allocations, in address order. */
  datatype Run = Run(base: nat, pages: nat, cells: seq<Cell>) {
    function Size(): nat { 4096 * pages }
    function End(): nat { base + 4096 * pages }
    function Begin(): nat { base + MAJOR_SIZE }
    /** The gap before allocation `j`, or the rest of the run. */
    function GapStart(j: nat): nat
      requires j <= |cells|
    {
      if j == 0 then Begin() else cells[j - 1].End()
    }
    function GapEnd(j: nat): nat
      requires j <= |cells|
    {
      if j == |cells| then End() else cells[j].at
    }
  }

  function Insert(r: Run, j: nat, c: Cell): (s: Run)
    requires j <= |r.cells|
    ensures s.base == r.base && s.pages == r.pages && |s.cells| == |r.cells| + 1 && s.cells[j] == c
    ensures forall k :: 0 <= k < j ==> s.cells[k] == r.cells[k]
    ensures forall k :: j < k <= |r.cells| ==> s.cells[k] == r.cells[k - 1]
  {
    r.(cells := r.cells[..j] + [c] + r.cells[j..])
  }

  function Remove(r: Run, j: nat): (s: Run)
    requires j < |r.cells|
    ensures s.base == r.base && s.pages == r.pages && |s.cells| == |r.cells| - 1
    ensures forall k :: 0 <= k < j ==> s.cells[k] == r.cells[k]
    ensures forall k :: j <= k < |s.cells| ==> s.cells[k] == r.cells[k + 1]
  {
    r.(cells := r.cells[..j] + r.cells[j + 1..])
  }

  ghost predicate CellOk(c: Cell) {
    WORD + c.offset + c.req <= c.size
  }

  /** Allocations in address order, between `lo` and `hi`, none overlapping. */
  ghost predicate Within(cells: seq<Cell>, lo: nat, hi: nat) {
    && lo <= hi
    && (forall j :: 0 <= j < |cells| ==> lo <= cells[j].at && cells[j].End() <= hi && CellOk(cells[j]))
    && (forall j, k :: 0 <= j < k < |cells| ==> cells[j].End() <= cells[k].at)
  }

  ghost predicate RunOk(r: Run) {
    0 < r.base && 0 < r.pages && r.End() < 0x1_0000_0000 && Within(r.cells, r.Begin(), r.End())
  }

  ghost predicate Apart(r: Run, s: Run) {
    r.End() <= s.base || s.End() <= r.base
  }

  ghost predicate Layout(runs: seq<Run>) {
    && (forall i :: 0 <= i < |runs| ==> RunOk(runs[i]))
    && (forall i, k :: 0 <= i < |runs| && 0 <= k < |runs| && i != k ==> Apart(runs[i], runs[k]))
  }

  predicate Gap(r: Run, j: nat, need: nat)
    requires j <= |r.cells|
  {
    r.GapEnd(j) - r.GapStart(j) >= need
  }

  /** No gap of the run is long enough. */
  ghost predicate NoGap(r: Run, need: nat) {
    forall j: nat :: j <= |r.cells| ==> !Gap(r, j, need)
  }

  /** `need` bytes from `at` on lie in the run, past its header, clear of every allocation and its header. */
  ghost predicate Spot(r: Run, at: nat, need: nat) {
    && r.base + 24 <= at && at + need <= r.base + 4096 * r.pages
    && forall j :: 0 <= j < |r.cells| ==> at + need <= r.cells[j].at || r.cells[j].at + 24 + r.cells[j].size <= at
  }

  /** A run has no gap that is long enough exactly when there is no room in it, wherever one looks. */
  lemma NoGapIff(r: Run, need: nat)
    requires RunOk(r) && need > 0
    ensures NoGap(r, need) <==> forall at :: !Spot(r, at, need)
  {
    if j: nat :| j <= |r.cells| && Gap(r, j, need) {
      assert Spot(r, r.GapStart(j), need);
    }
    if at :| Spot(r, at, need) {
      var j := GapAround(r, at, need, |r.cells|);
      assert Gap(r, j, need);
    }
  }

  /** The gap before the first allocation that lies past the spot. */
  lemma {:induction false} GapAround(r: Run, at: nat, need: nat, k: nat) returns (j: nat)
    requires RunOk(r) && need > 0 && Spot(r, at, need) && k <= |r.cells|
    requires k < |r.cells| ==> at + need <= r.cells[k].at
    ensures j <= |r.cells| && r.GapStart(j) <= at && at + need <= r.GapEnd(j)
    decreases k
  {
    j := k;
    if k > 0 && at + need <= r.cells[k - 1].at {
      j := GapAround(r, at, need, k - 1);
    }
  }

  // ---- accounting ----

  function Used(cells: seq<Cell>): nat {
    if cells == [] then 0 else Used(cells[..|cells| - 1]) + cells[|cells| - 1].size + MINOR_SIZE
  }

  function Sizes(cells: seq<Cell>): nat {
    if cells == [] then 0 else Sizes(cells[..|cells| - 1]) + cells[|cells| - 1].size
  }

  function AllPages(runs: seq<Run>): nat {
    if runs == [] then 0 else AllPages(runs[..|runs| - 1]) + runs[|runs| - 1].Size()
  }

  function AllSizes(runs: seq<Run>): nat {
    if runs == [] then 0 else AllSizes(runs[..|runs| - 1]) + Sizes(runs[|runs| - 1].cells)
  }

  lemma {:induction false} UsedConcat(a: seq<Cell>, b: seq<Cell>)
    ensures Used(a + b) == Used(a) + Used(b) && Sizes(a + b) == Sizes(a) + Sizes(b)
  {
    if b == [] {
      assert a + b == a;
    } else {
      var n := |b| - 1;
      UsedConcat(a, b[..n]);
      assert (a + b)[..|a + b| - 1] == a + b[..n];
    }
  }

  lemma UsedOne(c: Cell)
    ensures Used([c]) == c.size + MINOR_SIZE && Sizes([c]) == c.size
  {
  }

  lemma UsedInsert(r: Run, j: nat, c: Cell)
    requires j <= |r.cells|
    ensures Used(Insert(r, j, c).cells) == Used(r.cells) + c.size + MINOR_SIZE
    ensures Sizes(Insert(r, j, c).cells) == Sizes(r.cells) + c.size
  {
    hide Used, Sizes;
    UsedConcat(r.cells[..j], [c] + r.cells[j..]);
    UsedConcat([c], r.cells[j..]);
    UsedConcat(r.cells[..j], r.cells[j..]);
    UsedOne(c);
    assert r.cells == r.cells[..j] + r.cells[j..];
    assert Insert(r, j, c).cells == r.cells[..j] + ([c] + r.cells[j..]);
  }

  lemma InsertRemove(r: Run, j: nat)
    requires j < |r.cells|
    ensures r == Insert(Remove(r, j), j, r.cells[j])
  {
  }

  lemma RemoveInsert(r: Run, j: nat, c: Cell)
    requires j <= |r.cells|
    ensures Insert(r, j, c).cells[j] == c && Remove(Insert(r, j, c), j) == r
  {
  }

  lemma {:induction false} AllConcat(a: seq<Run>, b: seq<Run>)
    ensures AllPages(a + b) == AllPages(a) + AllPages(b) && AllSizes(a + b) == AllSizes(a) + AllSizes(b)
  {
    if b == [] {
      assert a + b == a;
    } else {
      var n := |b| - 1;
      AllConcat(a, b[..n]);
      assert (a + b)[..|a + b| - 1] == a + b[..n];
    }
  }

  lemma AllOne(r: Run)
    ensures AllPages([r]) == r.Size() && AllSizes([r]) == Sizes(r.cells)
  {
  }

  /** The sums with one run taken out. */
  lemma AllSplit(runs: seq<Run>, i: nat)
    requires i < |runs|
    ensures AllPages(runs) == AllPages(runs[..i] + runs[i + 1..]) + runs[i].Size()
    ensures AllSizes(runs) == AllSizes(runs[..i] + runs[i + 1..]) + Sizes(runs[i].cells)
  {
    hide AllPages, AllSizes, Sizes;
    AllConcat(runs[..i], [runs[i]] + runs[i + 1..]);
    AllConcat([runs[i]], runs[i + 1..]);
    AllConcat(runs[..i], runs[i + 1..]);
    AllOne(runs[i]);
    assert runs == runs[..i] + ([runs[i]] + runs[i + 1..]);
  }

  lemma AllUpdate(runs: seq<Run>, i: nat, r: Run)
    requires i < |runs| && r.pages == runs[i].pages
    ensures AllPages(runs[i := r]) == AllPages(runs)
    ensures AllSizes(runs[i := r]) == AllSizes(runs) - Sizes(runs[i].cells) + Sizes(r.cells)
  {
    hide AllPages, AllSizes, Sizes;
    var u := runs[i := r];
    AllSplit(runs, i);
    AllSplit(u, i);
    assert u[..i] == runs[..i] && u[i + 1..] == runs[i + 1..];
  }

  /** What lies between two bounds fits between them. */
  lemma {:induction false} UsedFits(cells: seq<Cell>, lo: nat, hi: nat)
    requires Within(cells, lo, hi)
    ensures Used(cells) <= hi - lo
  {
    if cells != [] {
      var n := |cells| - 1;
      UsedFits(cells[..n], lo, cells[n].at);
    }
  }

  lemma WithinSplit(r: Run, j: nat)
    requires RunOk(r) && j <= |r.cells|
    ensures Within(r.cells[..j], r.Begin(), r.GapStart(j)) && Within(r.cells[j..], r.GapEnd(j), r.End())
    ensures r.GapStart(j) <= r.GapEnd(j)
  {
  }

  /** No single gap is longer than the free bytes of the run: what the first case of the search relies on. */
  lemma GapAtMostFree(r: Run, j: nat)
    requires RunOk(r) && j <= |r.cells|
    ensures r.GapEnd(j) - r.GapStart(j) <= r.Size() - (MAJOR_SIZE + Used(r.cells))
    ensures MAJOR_SIZE + Used(r.cells) <= r.Size()
  {
    hide Within, Used;
    WithinSplit(r, j);
    UsedFits(r.cells[..j], r.Begin(), r.GapStart(j));
    UsedFits(r.cells[j..], r.GapEnd(j), r.End());
    UsedConcat(r.cells[..j], r.cells[j..]);
    assert r.cells == r.cells[..j] + r.cells[j..];
  }

  // ---- separation ----

  /** What a client may rely on: its payload is inside its run, clear of both kinds of headers, of every stored offset and
      of every other payload. */
  lemma PayloadsSeparate(runs: seq<Run>, i: nat, j: nat, k: nat, l: nat)
    requires Layout(runs) && i < |runs| && j < |runs[i].cells| && k < |runs| && l < |runs[k].cells|
    ensures var c, d := runs[i].cells[j], runs[k].cells[l];
      && runs[i].base + MAJOR_SIZE <= c.at && c.at + MINOR_SIZE + WORD <= c.Payload() && c.Payload() + c.req <= runs[i].End()
      && (c.Payload() + c.req <= runs[k].base || runs[k].base + MAJOR_SIZE <= c.Payload() - WORD)
      && ((i, j) != (k, l) ==>
            && (c.Payload() + c.req <= d.at || d.at + MINOR_SIZE <= c.Payload() - WORD)
            && (c.Payload() + c.req <= d.Payload() - WORD || d.Payload() + d.req <= c.Payload() - WORD))
  {
  }

  ghost predicate IsPayload(runs: seq<Run>, i: nat, j: nat, p: nat) {
    i < |runs| && j < |runs[i].cells| && runs[i].cells[j].Payload() == p
  }

  ghost predicate Live(runs: seq<Run>, p: nat) {
    exists i, j :: IsPayload(runs, i, j, p)
  }

  /** An address is the payload of one allocation at most. */
  lemma PayloadUnique(runs: seq<Run>, i: nat, j: nat, k: nat, l: nat, p: nat)
    requires Layout(runs) && IsPayload(runs, i, j, p) && IsPayload(runs, k, l, p)
    ensures i == k && j == l
  {
  }

  // ---- the links ----

  datatype Major = Major(prev: nat, next: nat, pages: nat, size: nat, usage: int, first: nat)
  datatype Minor = Minor(prev: nat, next: nat, block: nat, size: nat, req: nat)

  /** The headers by address, the offset words by the payload they precede, and the allocator's own fields. */
  datatype Links = Links(majors: map<nat, Major>, minors: map<nat, Minor>, words: map<nat, nat>, memRoot: nat, bestBet: nat,
                         total: int, inuse: int)

  function BaseAt(runs: seq<Run>, i: int): nat {
    if 0 <= i < |runs| then runs[i].base else 0
  }

  function CellAt(r: Run, j: int): nat {
    if 0 <= j < |r.cells| then r.cells[j].at else 0
  }

  function MajorOf(runs: seq<Run>, i: nat): Major
    requires i < |runs|
  {
    var r := runs[i];
    Major(BaseAt(runs, i - 1), BaseAt(runs, i + 1), r.pages, r.Size(), MAJOR_SIZE + Used(r.cells), CellAt(r, 0))
  }

  function MinorOf(r: Run, j: nat): Minor
    requires j < |r.cells|
  {
    Minor(CellAt(r, j - 1), CellAt(r, j + 1), r.base, r.cells[j].size, r.cells[j].req)
  }

  predicate MajorAt(majors: map<nat, Major>, runs: seq<Run>, i: nat)
    requires i < |runs|
  {
    runs[i].base in majors && majors[runs[i].base] == MajorOf(runs, i)
  }

  ghost predicate MajorsOk(majors: map<nat, Major>, runs: seq<Run>) {
    forall i: nat :: i < |runs| ==> MajorAt(majors, runs, i)
  }

  predicate MinorAt(minors: map<nat, Minor>, words: map<nat, nat>, r: Run, j: nat)
    requires j < |r.cells|
  {
    && r.cells[j].at in minors && minors[r.cells[j].at] == MinorOf(r, j)
    && r.cells[j].Payload() in words && words[r.cells[j].Payload()] == r.cells[j].offset
  }

  ghost predicate ChainOk(minors: map<nat, Minor>, words: map<nat, nat>, r: Run) {
    forall j: nat :: j < |r.cells| ==> MinorAt(minors, words, r, j)
  }

  ghost predicate ChainsOk(minors: map<nat, Minor>, words: map<nat, nat>, runs: seq<Run>) {
    forall i :: 0 <= i < |runs| ==> ChainOk(minors, words, runs[i])
  }

  ghost predicate BetOk(bestBet: nat, runs: seq<Run>) {
    bestBet == 0 || exists i :: 0 <= i < |runs| && runs[i].base == bestBet
  }

  /** The links stand for these runs, and the counters for their sums. */
  ghost predicate Rep(h: Links, runs: seq<Run>) {
    && Layout(runs)
    && MajorsOk(h.majors, runs) && ChainsOk(h.minors, h.words, runs)
    && h.memRoot == BaseAt(runs, 0) && BetOk(h.bestBet, runs)
    && h.total == AllPages(runs) && h.inuse == AllSizes(runs)
  }

  /** What the code does to put allocation `c` between `prev` and `next` in the run at `base`; 0 stands for none. */
  function Linked(h: Links, base: nat, prev: nat, next: nat, c: Cell): Links
    requires base in h.majors
  {
    var m := h.majors[base];
    h.(majors := h.majors[base := m.(usage := m.usage + c.size + MINOR_SIZE, first := if prev == 0 then c.at else m.first)],
       minors := LinkedMinors(h.minors, prev, next, c.at, Minor(prev, next, base, c.size, c.req)),
       words := h.words[c.Payload() := c.offset], inuse := h.inuse + c.size)
  }

  function LinkedMinors(ms: map<nat, Minor>, prev: nat, next: nat, at: nat, min: Minor): map<nat, Minor> {
    var ms := ms[at := min];
    var ms := if prev in ms && prev != 0 then ms[prev := ms[prev].(next := at)] else ms;
    if next in ms && next != 0 then ms[next := ms[next].(prev := at)] else ms
  }

  /** Allocation `c` fills gap `j` of run `i` from the front. */
  ghost predicate FitsGap(r: Run, j: nat, c: Cell) {
    j <= |r.cells| && c.at == r.GapStart(j) && c.End() <= r.GapEnd(j) && CellOk(c)
  }

  lemma InsertKeepsRun(r: Run, j: nat, c: Cell)
    requires RunOk(r) && FitsGap(r, j, c)
    ensures RunOk(Insert(r, j, c))
  {
    hide Insert, CellOk;
    var s := Insert(r, j, c);
    forall k | 0 <= k < |s.cells| ensures s.Begin() <= s.cells[k].at && s.cells[k].End() <= s.End() && CellOk(s.cells[k]) {
      assert k < j ==> s.cells[k] == r.cells[k];
      assert k > j ==> s.cells[k] == r.cells[k - 1];
    }
    forall k, l | 0 <= k < l < |s.cells| ensures s.cells[k].End() <= s.cells[l].at {
      assert k < j ==> s.cells[k] == r.cells[k];
      assert k > j ==> s.cells[k] == r.cells[k - 1];
      assert l < j ==> s.cells[l] == r.cells[l];
      assert l > j ==> s.cells[l] == r.cells[l - 1];
    }
  }

  lemma LayoutUpdate(runs: seq<Run>, i: nat, s: Run)
    requires Layout(runs) && i < |runs| && RunOk(s) && s.base == runs[i].base && s.pages == runs[i].pages
    ensures Layout(runs[i := s])
  {
  }

  lemma AtUnique(runs: seq<Run>, i: nat, j: nat, k: nat, l: nat)
    requires Layout(runs) && i < |runs| && j < |runs[i].cells| && k < |runs| && l < |runs[k].cells|
    ensures (i, j) != (k, l) ==> runs[i].cells[j].at != runs[k].cells[l].at && runs[i].cells[j].Payload() != runs[k].cells[l].Payload()
    ensures runs[i].cells[j].at != 0
  {
  }

  /** Only run `i` changes, and its own header with it. */
  lemma MajorsUpdate(majors: map<nat, Major>, runs: seq<Run>, i: nat, s: Run)
    requires Layout(runs) && MajorsOk(majors, runs) && i < |runs| && s.base == runs[i].base && s.pages == runs[i].pages
    ensures s.base in majors
    ensures MajorsOk(majors[s.base := majors[s.base].(usage := MAJOR_SIZE + Used(s.cells), first := CellAt(s, 0))], runs[i := s])
  {
    hide Layout, Used;
    assert MajorAt(majors, runs, i);
    var us := runs[i := s];
    var ms := majors[s.base := majors[s.base].(usage := MAJOR_SIZE + Used(s.cells), first := CellAt(s, 0))];
    forall k: nat | k < |runs| ensures MajorAt(ms, us, k) {
      assert MajorAt(majors, runs, k);
      if k != i {
        BasesDiffer(runs, k, i);
        assert MajorOf(us, k) == MajorOf(runs, k);
      } else {
        assert MajorOf(us, i) == MajorOf(runs, i).(usage := MAJOR_SIZE + Used(s.cells), first := CellAt(s, 0));
      }
    }
  }

  lemma BasesDiffer(runs: seq<Run>, k: nat, i: nat)
    requires Layout(runs) && k < |runs| && i < |runs| && k != i
    ensures runs[k].base != runs[i].base
  {
  }

  /** The run new pages come after is there, and elsewhere. */
  lemma LastApart(h: Links, runs: seq<Run>, page: nat, pages: nat)
    requires Rep(h, runs) && FreshPages(runs, page, pages)
    ensures var last := BaseAt(runs, |runs| - 1); last != 0 ==> last in h.majors && last != page
  {
    if runs != [] {
      MajorIs(h, runs, |runs| - 1);
      AppendedAdds(h, runs, page, pages);
      BasesDiffer(runs + [Run(page, pages, [])], |runs| - 1, |runs|);
    }
  }

  /** A chain none of whose entries changed. */
  lemma ChainKept(minors: map<nat, Minor>, words: map<nat, nat>, minors': map<nat, Minor>, words': map<nat, nat>, r: Run)
    requires ChainOk(minors, words, r)
    requires forall j: nat :: j < |r.cells| && MinorAt(minors, words, r, j) ==> MinorAt(minors', words', r, j)
    ensures ChainOk(minors', words', r)
  {
  }

  /** Linking is insertion. */
  lemma LinkedInserts(h: Links, runs: seq<Run>, i: nat, j: nat, c: Cell)
    requires Rep(h, runs) && i < |runs| && FitsGap(runs[i], j, c)
    ensures runs[i].base in h.majors
    ensures Rep(Linked(h, runs[i].base, CellAt(runs[i], j - 1), CellAt(runs[i], j), c), runs[i := Insert(runs[i], j, c)])
  {
    hide Within, CellOk, ChainOk, Insert, Used, Sizes, AllPages, AllSizes;
    var r := runs[i];
    var s := Insert(r, j, c);
    InsertKeepsRun(r, j, c);
    LayoutUpdate(runs, i, s);
    MajorsUpdate(h.majors, runs, i, s);
    UsedInsert(r, j, c);
    AllUpdate(runs, i, s);
    LinkedChains(h, runs, i, j, c);
    BetKept(h.bestBet, runs, runs[i := s]);
    assert BaseAt(runs[i := s], 0) == BaseAt(runs, 0);
    assert MajorAt(h.majors, runs, i);
    if j > 0 {
      AtUnique(runs, i, j - 1, i, j - 1);
    }
    assert CellAt(s, 0) == if CellAt(r, j - 1) == 0 then c.at else CellAt(r, 0);
    hide Layout, ChainsOk, MajorsOk, FitsGap;
  }

  lemma BetKept(bestBet: nat, runs: seq<Run>, us: seq<Run>)
    requires BetOk(bestBet, runs) && |us| == |runs| && forall k :: 0 <= k < |runs| ==> us[k].base == runs[k].base
    ensures BetOk(bestBet, us)
  {
  }

  lemma LinkedChains(h: Links, runs: seq<Run>, i: nat, j: nat, c: Cell)
    requires Layout(runs) && MajorsOk(h.majors, runs) && ChainsOk(h.minors, h.words, runs)
    requires i < |runs| && FitsGap(runs[i], j, c) && Layout(runs[i := Insert(runs[i], j, c)])
    ensures runs[i].base in h.majors
    ensures var g := Linked(h, runs[i].base, CellAt(runs[i], j - 1), CellAt(runs[i], j), c);
      ChainsOk(g.minors, g.words, runs[i := Insert(runs[i], j, c)])
  {
    assert MajorAt(h.majors, runs, i) && j <= |runs[i].cells|;
    hide Layout, MajorsOk, FitsGap, Insert;
    var r := runs[i];
    var us := runs[i := Insert(r, j, c)];
    assert ChainOk(h.minors, h.words, r);
    LinkedOwnChain(h, us, i, j, c, r);
    var g := Linked(h, r.base, CellAt(r, j - 1), CellAt(r, j), c);
    forall k: nat | k < |us| && k != i ensures ChainOk(g.minors, g.words, us[k]) {
      assert ChainOk(h.minors, h.words, runs[k]);
      forall l: nat | l < |us[k].cells| && MinorAt(h.minors, h.words, us[k], l) ensures MinorAt(g.minors, g.words, us[k], l) {
        OutsideRun(us, k, l, i, j, c, r);
      }
      ChainKept(h.minors, h.words, g.minors, g.words, us[k]);
    }
  }

  /** A header of another run is none of the three that linking writes. */
  lemma OutsideRun(us: seq<Run>, k: nat, l: nat, i: nat, j: nat, c: Cell, r: Run)
    requires Layout(us) && k < |us| && l < |us[k].cells| && i < |us| && k != i && j <= |r.cells| && us[i] == Insert(r, j, c)
    ensures var d := us[k].cells[l];
      d.at != c.at && d.Payload() != c.Payload() && d.at != CellAt(r, j - 1) && d.at != CellAt(r, j)
  {
    hide Insert, Layout;
    AtUnique(us, k, l, i, j);
    if j > 0 {
      AtUnique(us, k, l, i, j - 1);
    }
    if j < |r.cells| {
      AtUnique(us, k, l, i, j + 1);
    }
  }

  lemma LinkedOwnChain(h: Links, us: seq<Run>, i: nat, j: nat, c: Cell, r: Run)
    requires Layout(us) && i < |us| && j <= |r.cells| && us[i] == Insert(r, j, c) && r.base in h.majors
    requires ChainOk(h.minors, h.words, r)
    ensures var g := Linked(h, r.base, CellAt(r, j - 1), CellAt(r, j), c); ChainOk(g.minors, g.words, us[i])
  {
    hide Layout, Insert;
    var s := us[i];
    var g := Linked(h, r.base, CellAt(r, j - 1), CellAt(r, j), c);
    forall l: nat | l < |s.cells| ensures MinorAt(g.minors, g.words, s, l) {
      InsideRun(us, i, j, l);
      if l < j {
        assert MinorAt(h.minors, h.words, r, l);
      } else if l > j {
        assert MinorAt(h.minors, h.words, r, l - 1);
      }
    }
  }

  /** Headers at different places in a run have different addresses. */
  lemma InsideRun(us: seq<Run>, i: nat, j: nat, l: nat)
    requires Layout(us) && i < |us| && j < |us[i].cells| && l < |us[i].cells|
    ensures us[i].cells[l].at != 0
    ensures l != j ==> us[i].cells[l].at != us[i].cells[j].at && us[i].cells[l].Payload() != us[i].cells[j].Payload()
    ensures j > 0 && l != j - 1 ==> us[i].cells[l].at != us[i].cells[j - 1].at
    ensures j + 1 < |us[i].cells| && l != j + 1 ==> us[i].cells[l].at != us[i].cells[j + 1].at
  {
  }

  /** What the code does to take out the allocation whose header is at `at`. */
  function Unlinked(h: Links, at: nat): Links
    requires at in h.minors && h.minors[at].block in h.majors
  {
    var min := h.minors[at];
    var m := h.majors[min.block];
    var minors := h.minors;
    var minors := if min.next in minors && min.next != 0 then minors[min.next := minors[min.next].(prev := min.prev)] else minors;
    var minors := if min.prev in minors && min.prev != 0 then minors[min.prev := minors[min.prev].(next := min.next)] else minors;
    h.(majors := h.majors[min.block := m.(usage := m.usage - (min.size + MINOR_SIZE), first := if min.prev == 0 then min.next else m.first)],
       minors := minors - {at}, inuse := h.inuse - min.size)
  }

  lemma RemoveKeepsRun(r: Run, j: nat)
    requires RunOk(r) && j < |r.cells|
    ensures RunOk(Remove(r, j))
  {
  }

  /** Unlinking is removal. */
  lemma UnlinkedRemoves(h: Links, runs: seq<Run>, i: nat, j: nat)
    requires Rep(h, runs) && i < |runs| && j < |runs[i].cells|
    ensures var at := runs[i].cells[j].at; at in h.minors && h.minors[at].block in h.majors && h.minors[at] == MinorOf(runs[i], j)
    ensures Rep(Unlinked(h, runs[i].cells[j].at), runs[i := Remove(runs[i], j)])
  {
    hide Within, CellOk, ChainOk, Remove, Used, Sizes, AllPages, AllSizes;
    var r := runs[i];
    var s := Remove(r, j);
    assert MajorAt(h.majors, runs, i) && ChainOk(h.minors, h.words, r);
    ChainAt(h.minors, h.words, r, j);
    RemoveKeepsRun(r, j);
    LayoutUpdate(runs, i, s);
    MajorsUpdate(h.majors, runs, i, s);
    InsertRemove(r, j);
    UsedInsert(s, j, r.cells[j]);
    AllUpdate(runs, i, s);
    BetKept(h.bestBet, runs, runs[i := s]);
    assert BaseAt(runs[i := s], 0) == BaseAt(runs, 0);
    if j > 0 {
      AtUnique(runs, i, j - 1, i, j - 1);
    }
    assert CellAt(s, 0) == if CellAt(r, j - 1) == 0 then CellAt(r, j + 1) else CellAt(r, 0);
    UnlinkedChains(h, runs, i, j);
    hide Layout, ChainsOk, MajorsOk;
  }

  lemma ChainAt(minors: map<nat, Minor>, words: map<nat, nat>, r: Run, j: nat)
    requires ChainOk(minors, words, r) && j < |r.cells|
    ensures MinorAt(minors, words, r, j)
  {
  }

  lemma UnlinkedChains(h: Links, runs: seq<Run>, i: nat, j: nat)
    requires Layout(runs) && MajorsOk(h.majors, runs) && ChainsOk(h.minors, h.words, runs)
    requires i < |runs| && j < |runs[i].cells|
    ensures var at := runs[i].cells[j].at; at in h.minors && h.minors[at].block in h.majors && h.minors[at] == MinorOf(runs[i], j)
    ensures var g := Unlinked(h, runs[i].cells[j].at); ChainsOk(g.minors, g.words, runs[i := Remove(runs[i], j)])
  {
    var r := runs[i];
    assert MajorAt(h.majors, runs, i) && ChainOk(h.minors, h.words, r) && MinorAt(h.minors, h.words, r, j);
    hide Layout, MajorsOk, Remove;
    var us := runs[i := Remove(r, j)];
    UnlinkedOwnChain(h, runs, i, j);
    var g := Unlinked(h, r.cells[j].at);
    forall k: nat | k < |us| && k != i ensures ChainOk(g.minors, g.words, us[k]) {
      assert ChainOk(h.minors, h.words, runs[k]);
      forall l: nat | l < |us[k].cells| && MinorAt(h.minors, h.words, us[k], l) ensures MinorAt(g.minors, g.words, us[k], l) {
        AtUnique(runs, k, l, i, j);
        if j > 0 {
          AtUnique(runs, k, l, i, j - 1);
        }
        if j + 1 < |r.cells| {
          AtUnique(runs, k, l, i, j + 1);
        }
      }
      ChainKept(h.minors, h.words, g.minors, g.words, us[k]);
    }
  }

  lemma UnlinkedOwnChain(h: Links, runs: seq<Run>, i: nat, j: nat)
    requires Layout(runs) && i < |runs| && j < |runs[i].cells| && runs[i].base in h.majors
    requires ChainOk(h.minors, h.words, runs[i]) && MinorAt(h.minors, h.words, runs[i], j)
    ensures var g := Unlinked(h, runs[i].cells[j].at); ChainOk(g.minors, g.words, Remove(runs[i], j))
  {
    hide Layout, Remove;
    var r := runs[i];
    var s := Remove(r, j);
    var g := Unlinked(h, r.cells[j].at);
    forall l: nat | l < |s.cells| ensures MinorAt(g.minors, g.words, s, l) {
      var was := if l < j then l else l + 1;
      InsideRun(runs, i, j, was);
      assert MinorAt(h.minors, h.words, r, was) && s.cells[l] == r.cells[was];
      assert CellAt(s, l - 1) == if l == j then CellAt(r, j - 1) else CellAt(r, was - 1);
      assert CellAt(s, l + 1) == if l + 1 == j then CellAt(r, j + 1) else CellAt(r, was + 1);
    }
  }

  /** What the code does to an emptied run: unlink it and give its pages back. */
  function Dropped(h: Links, base: nat): Links
    requires base in h.majors
  {
    var m := h.majors[base];
    var majors := h.majors;
    var majors := if m.prev in majors && m.prev != 0 then majors[m.prev := majors[m.prev].(next := m.next)] else majors;
    var majors := if m.next in majors && m.next != 0 then majors[m.next := majors[m.next].(prev := m.prev)] else majors;
    h.(majors := majors - {base}, memRoot := if h.memRoot == base then m.next else h.memRoot,
       bestBet := if h.bestBet == base then 0 else h.bestBet, total := h.total - m.size)
  }

  function Without(runs: seq<Run>, i: nat): (us: seq<Run>)
    requires i < |runs|
    ensures |us| == |runs| - 1
    ensures forall k :: 0 <= k < |us| ==> us[k] == if k < i then runs[k] else runs[k + 1]
  {
    runs[..i] + runs[i + 1..]
  }

  lemma DroppedRemoves(h: Links, runs: seq<Run>, i: nat)
    requires Rep(h, runs) && i < |runs| && runs[i].cells == []
    ensures runs[i].base in h.majors && Rep(Dropped(h, runs[i].base), Without(runs, i))
  {
    hide Layout, ChainOk, Used, Sizes, AllPages, AllSizes;
    var us := Without(runs, i);
    assert MajorAt(h.majors, runs, i);
    NoSizes();
    AllSplit(runs, i);
    DroppedLayout(runs, i);
    DroppedMajors(h, runs, i);
    DroppedBet(h.bestBet, runs, i);
    if i > 0 {
      BasesDiffer(runs, 0, i);
      assert us[0] == runs[0];
    }
    forall k: nat | k < |us| ensures ChainOk(h.minors, h.words, us[k]) {
      assert us[k] == runs[if k < i then k else k + 1];
    }
    hide MajorsOk, Without;
  }

  lemma NoSizes()
    ensures Sizes([]) == 0 && Used([]) == 0
  {
  }

  lemma DroppedBet(bestBet: nat, runs: seq<Run>, i: nat)
    requires i < |runs| && BetOk(bestBet, runs)
    ensures BetOk(if bestBet == runs[i].base then 0 else bestBet, Without(runs, i))
  {
    if bestBet != 0 && bestBet != runs[i].base {
      var k :| 0 <= k < |runs| && runs[k].base == bestBet;
      assert Without(runs, i)[if k < i then k else k - 1].base == bestBet;
    }
  }

  lemma DroppedLayout(runs: seq<Run>, i: nat)
    requires Layout(runs) && i < |runs|
    ensures Layout(Without(runs, i))
  {
  }

  lemma DroppedMajors(h: Links, runs: seq<Run>, i: nat)
    requires Layout(runs) && MajorsOk(h.majors, runs) && i < |runs| && MajorAt(h.majors, runs, i)
    ensures MajorsOk(Dropped(h, runs[i].base).majors, Without(runs, i))
  {
    var us := Without(runs, i);
    forall k: nat | k < |us| ensures MajorAt(Dropped(h, runs[i].base).majors, us, k) {
      var k' := if k < i then k else k + 1;
      assert MajorAt(h.majors, runs, k');
      DroppedMajorAt(h, runs, i, k);
    }
  }

  /** What dropping does to one other header. */
  lemma DroppedEntry(h: Links, base: nat, b: nat)
    requires base in h.majors && b in h.majors && b != base && b != 0
    ensures var m, x := h.majors[base], h.majors[b];
      && b in Dropped(h, base).majors
      && Dropped(h, base).majors[b] == x.(next := if b == m.prev then m.next else x.next, prev := if b == m.next then m.prev else x.prev)
  {
  }

  lemma DroppedMajorAt(h: Links, runs: seq<Run>, i: nat, k: nat)
    requires Layout(runs) && i < |runs| && k < |runs| - 1 && MajorAt(h.majors, runs, i)
    requires MajorAt(h.majors, runs, if k < i then k else k + 1)
    ensures MajorAt(Dropped(h, runs[i].base).majors, Without(runs, i), k)
  {
    hide Layout, Used, Dropped;
    var us := Without(runs, i);
    var k' := if k < i then k else k + 1;
    assert us[k] == runs[k'];
    assert k + 1 < |us| ==> us[k + 1] == runs[if k + 1 < i then k + 1 else k + 2];
    BasesDiffer(runs, k', i);
    NonZeroBase(runs, k');
    DroppedEntry(h, runs[i].base, runs[k'].base);
    assert (runs[k'].base == BaseAt(runs, i - 1)) == (k' == i - 1) by {
      if i > 0 && k' != i - 1 {
        BasesDiffer(runs, k', i - 1);
      }
    }
    assert (runs[k'].base == BaseAt(runs, i + 1)) == (k' == i + 1) by {
      if i + 1 < |runs| && k' != i + 1 {
        BasesDiffer(runs, k', i + 1);
      }
    }
    assert BaseAt(us, k - 1) == if k == i then BaseAt(runs, i - 1) else BaseAt(runs, k' - 1);
    assert BaseAt(us, k + 1) == if k + 1 == i then BaseAt(runs, i + 1) else BaseAt(runs, k' + 1);
  }

  lemma NonZeroBase(runs: seq<Run>, i: nat)
    requires Layout(runs) && i < |runs|
    ensures runs[i].base > 0
  {
  }

  /** What the code does with pages it was given: a run of its own after `last`, which is 0 for the first run. */
  function Appended(h: Links, last: nat, page: nat, pages: nat): Links {
    var size := 4096 * pages;
    var majors := h.majors[page := Major(last, 0, pages, size, MAJOR_SIZE, 0)];
    var majors := if last in majors && last != 0 then majors[last := majors[last].(next := page)] else majors;
    h.(majors := majors, memRoot := if last == 0 then page else h.memRoot, total := h.total + size)
  }

  /** What the page provider promises: whole pages, in no run, below the top of the address space. */
  ghost predicate FreshPages(runs: seq<Run>, page: nat, pages: nat) {
    var r := Run(page, pages, []);
    RunOk(r) && forall i :: 0 <= i < |runs| ==> Apart(runs[i], r)
  }

  lemma AppendedAdds(h: Links, runs: seq<Run>, page: nat, pages: nat)
    requires Rep(h, runs) && FreshPages(runs, page, pages)
    ensures Rep(Appended(h, BaseAt(runs, |runs| - 1), page, pages), runs + [Run(page, pages, [])])
  {
    hide Layout, ChainOk, Used, Sizes, AllPages, AllSizes;
    var r := Run(page, pages, []);
    var us := runs + [r];
    NoSizes();
    AllConcat(runs, [r]);
    AllOne(r);
    AppendedLayout(runs, r);
    AppendedMajors(h, runs, page, pages);
    AppendedChains(h, runs, r);
    if runs != [] {
      NonZeroBase(runs, |runs| - 1);
    }
    AppendedBet(h.bestBet, runs, r);
    hide FreshPages, MajorsOk, ChainsOk, BetOk;
  }

  lemma AppendedBet(bestBet: nat, runs: seq<Run>, r: Run)
    requires BetOk(bestBet, runs)
    ensures BetOk(bestBet, runs + [r])
  {
    if bestBet != 0 {
      var k :| 0 <= k < |runs| && runs[k].base == bestBet;
      assert (runs + [r])[k].base == bestBet;
    }
  }

  lemma AppendedChains(h: Links, runs: seq<Run>, r: Run)
    requires ChainsOk(h.minors, h.words, runs) && r.cells == []
    ensures ChainsOk(h.minors, h.words, runs + [r])
  {
  }

  lemma AppendedLayout(runs: seq<Run>, r: Run)
    requires Layout(runs) && RunOk(r) && forall i :: 0 <= i < |runs| ==> Apart(runs[i], r)
    ensures Layout(runs + [r])
  {
  }

  /** What appending does to one older header. */
  lemma AppendedEntry(h: Links, last: nat, page: nat, pages: nat, b: nat)
    requires b in h.majors && b != page && last != page && (last == 0 || last in h.majors)
    ensures var g := Appended(h, last, page, pages);
      && b in g.majors && g.majors[b] == (if b == last && last != 0 then h.majors[b].(next := page) else h.majors[b])
      && page in g.majors && g.majors[page] == Major(last, 0, pages, 4096 * pages, MAJOR_SIZE, 0)
  {
  }

  lemma AppendedMajors(h: Links, runs: seq<Run>, page: nat, pages: nat)
    requires Layout(runs) && MajorsOk(h.majors, runs) && Layout(runs + [Run(page, pages, [])])
    ensures MajorsOk(Appended(h, BaseAt(runs, |runs| - 1), page, pages).majors, runs + [Run(page, pages, [])])
  {
    var us := runs + [Run(page, pages, [])];
    var last := BaseAt(runs, |runs| - 1);
    var g := Appended(h, last, page, pages);
    NoSizes();
    if runs != [] {
      assert MajorAt(h.majors, runs, |runs| - 1);
      BasesDiffer(us, |runs| - 1, |runs|);
      NonZeroBase(runs, |runs| - 1);
    }
    forall k: nat | k < |runs| ensures MajorAt(g.majors, us, k) {
      assert MajorAt(h.majors, runs, k);
      AppendedMajorAt(h, runs, page, pages, k);
    }
    assert MajorAt(g.majors, us, |runs|) by {
      hide Layout, MajorsOk;
      assert us[|runs|] == Run(page, pages, []) && (runs != [] ==> us[|runs| - 1] == runs[|runs| - 1]);
    }
  }

  lemma AppendedMajorAt(h: Links, runs: seq<Run>, page: nat, pages: nat, k: nat)
    requires Layout(runs) && Layout(runs + [Run(page, pages, [])])
    requires k < |runs| && MajorAt(h.majors, runs, k) && MajorAt(h.majors, runs, |runs| - 1)
    ensures MajorAt(Appended(h, BaseAt(runs, |runs| - 1), page, pages).majors, runs + [Run(page, pages, [])], k)
  {
    hide Layout, Used, Appended;
    var us := runs + [Run(page, pages, [])];
    var n := |runs| - 1;
    BasesDiffer(us, k, |runs|);
    BasesDiffer(us, n, |runs|);
    NonZeroBase(runs, k);
    AppendedEntry(h, runs[n].base, page, pages, runs[k].base);
    if k != n {
      BasesDiffer(runs, k, n);
    }
    assert us[k] == runs[k];
    assert BaseAt(us, k - 1) == BaseAt(runs, k - 1);
    assert BaseAt(us, k + 1) == if k == n then page else BaseAt(runs, k + 1);
  }

  // ---- what a call did ----

  /** Allocation `c` went into gap `j` of run `i`, the first of that run that is long enough. */
  ghost predicate PlacedIn(runs: seq<Run>, us: seq<Run>, i: nat, j: nat, c: Cell) {
    && i < |runs| && FitsGap(runs[i], j, c) && us == runs[i := Insert(runs[i], j, c)]
    && NoGapBefore(runs[i], j, c.size + MINOR_SIZE)
  }

  ghost predicate NoGapBefore(r: Run, j: nat, need: nat)
    requires j <= |r.cells|
  {
    forall k: nat :: k < j ==> !Gap(r, k, need)
  }

  lemma NoGapNext(r: Run, j: nat, need: nat)
    requires j <= |r.cells| && NoGapBefore(r, j, need)
    ensures !Gap(r, j, need) && j < |r.cells| ==> NoGapBefore(r, j + 1, need)
    ensures !Gap(r, j, need) && j == |r.cells| ==> NoGap(r, need)
  {
  }

  lemma NewRunFits(req: nat, align: nat, page: nat)
    requires Sane(req, align)
    ensures var r, need := Run(page, PagesFor(AllocSize(req, align)), []), AllocSize(req, align) + MINOR_SIZE;
      Gap(r, 0, need) && !NoGap(r, need)
  {
    PagesHoldIff(req, align);
    assert Gap(Run(page, PagesFor(AllocSize(req, align)), []), 0, AllocSize(req, align) + MINOR_SIZE);
  }

  lemma NoGapsNone(runs: seq<Run>, need: nat)
    ensures NoGaps(runs, 0, 0, need)
  {
  }

  lemma NoGapsNext(runs: seq<Run>, i: nat, need: nat)
    requires i < |runs| && NoGap(runs[i], need)
    ensures NoGaps(runs, 0, i, need) ==> NoGaps(runs, 0, i + 1, need)
  {
  }

  /** Nothing is allocated at 0. */
  lemma NullIsDead(h: Links, runs: seq<Run>)
    requires Rep(h, runs)
    ensures !Live(runs, 0)
  {
  }

  /** Stepping back from a payload over the stored offset and the header finds the header. */
  lemma LiveHeader(h: Links, runs: seq<Run>, i: nat, j: nat, p: nat)
    requires Rep(h, runs) && IsPayload(runs, i, j, p)
    ensures var at := runs[i].cells[j].at;
      && p in h.words && p - (h.words[p] + WORD) - MINOR_SIZE == at && at in h.minors && h.minors[at].block == runs[i].base
      && h.minors[at].req == runs[i].cells[j].req
  {
    MinorIs(h, runs, i, j);
  }

  lemma BetIs(h: Links, runs: seq<Run>)
    requires Rep(h, runs)
    ensures h.bestBet != 0 ==> h.bestBet in h.majors
  {
    if h.bestBet != 0 {
      var k: nat :| k < |runs| && runs[k].base == h.bestBet;
      MajorIs(h, runs, k);
    }
  }

  lemma ReclaimedIs(runs: seq<Run>, i: nat, j: nat)
    requires i < |runs| && j < |runs[i].cells| && AllNonEmpty(runs)
    ensures var us := runs[i := Remove(runs[i], j)];
      Reclaimed(runs, i, j) == (if us[i].cells == [] then Without(us, i) else us) && AllNonEmpty(Reclaimed(runs, i, j))
  {
  }

  /** The runs with the size asked for of one allocation changed, its place and size kept. */
  function WithReq(runs: seq<Run>, i: nat, j: nat, req: nat): seq<Run>
    requires i < |runs| && j < |runs[i].cells|
  {
    runs[i := runs[i].(cells := runs[i].cells[j := runs[i].cells[j].(req := req)])]
  }

  /** `us` is `runs`, or `runs` and one new run, with an allocation put in whose payload is `p`. */
  ghost predicate Carved(runs: seq<Run>, us: seq<Run>, p: nat, req: nat, align: nat)
    requires align > 0
  {
    exists grown, k, l, c :: PlacedIn(grown, us, k, l, c) && Extends(grown, runs) && c.Payload() == p && c.req == req && Rem(p, align) == 0
  }

  ghost predicate Extends(grown: seq<Run>, runs: seq<Run>) {
    grown == runs || (|grown| == |runs| + 1 && grown[..|runs|] == runs)
  }

  ghost predicate FreedFrom(runs: seq<Run>, us: seq<Run>, p: nat) {
    exists k, l :: IsPayload(runs, k, l, p) && us == Reclaimed(runs, k, l)
  }

  lemma FreedIs(runs: seq<Run>, us: seq<Run>, k: nat, l: nat, p: nat)
    requires IsPayload(runs, k, l, p) && us == Reclaimed(runs, k, l)
    ensures FreedFrom(runs, us, p)
  {
  }

  lemma CarvedIs(runs: seq<Run>, grown: seq<Run>, us: seq<Run>, k: nat, l: nat, c: Cell, align: nat)
    requires align > 0 && PlacedIn(grown, us, k, l, c) && Extends(grown, runs) && Rem(c.Payload(), align) == 0
    ensures Carved(runs, us, c.Payload(), c.req, align)
  {
  }

  /** Allocating leaves the other allocations where they are. */
  lemma PayloadKept(runs: seq<Run>, grown: seq<Run>, us: seq<Run>, k: nat, l: nat, c: Cell, i: nat, j: nat, p: nat)
    requires IsPayload(runs, i, j, p) && PlacedIn(grown, us, k, l, c) && Extends(grown, runs)
    ensures Live(us, p)
  {
    assert grown[i] == runs[i];
    assert IsPayload(us, i, if i == k && j >= l then j + 1 else j, p);
  }

  lemma ShrinkKeeps(h: Links, runs: seq<Run>, i: nat, j: nat, req: nat)
    requires Rep(h, runs) && i < |runs| && j < |runs[i].cells| && req <= runs[i].cells[j].req
    ensures runs[i].cells[j].at in h.minors
    ensures var at := runs[i].cells[j].at;
      Rep(h.(minors := h.minors[at := h.minors[at].(req := req)]), WithReq(runs, i, j, req))
    ensures AllNonEmpty(runs) ==> AllNonEmpty(WithReq(runs, i, j, req))
  {
    hide Within, ChainOk, Insert, Remove, Used, Sizes, AllPages, AllSizes, Layout;
    var r := runs[i];
    var c := r.cells[j].(req := req);
    var s := r.(cells := r.cells[j := c]);
    InsertRemove(r, j);
    UsedInsert(Remove(r, j), j, r.cells[j]);
    UsedInsert(Remove(r, j), j, c);
    assert s == Insert(Remove(r, j), j, c);
    ShrinkRun(runs, i, j, req);
    LayoutUpdate(runs, i, s);
    MajorsUpdate(h.majors, runs, i, s);
    MajorIs(h, runs, i);
    AllUpdate(runs, i, s);
    BetKept(h.bestBet, runs, runs[i := s]);
    MinorIs(h, runs, i, j);
    ShrinkChains(h, runs, i, j, req);
    assert h.majors == h.majors[s.base := h.majors[s.base].(usage := MAJOR_SIZE + Used(s.cells), first := CellAt(s, 0))];
  }

  lemma ShrinkRun(runs: seq<Run>, i: nat, j: nat, req: nat)
    requires Layout(runs) && i < |runs| && j < |runs[i].cells| && req <= runs[i].cells[j].req
    ensures RunOk(WithReq(runs, i, j, req)[i])
  {
  }

  lemma ShrinkChains(h: Links, runs: seq<Run>, i: nat, j: nat, req: nat)
    requires Layout(runs) && ChainsOk(h.minors, h.words, runs) && i < |runs| && j < |runs[i].cells|
    requires runs[i].cells[j].at in h.minors
    ensures var at := runs[i].cells[j].at;
      ChainsOk(h.minors[at := h.minors[at].(req := req)], h.words, WithReq(runs, i, j, req))
  {
    hide Layout;
    var at := runs[i].cells[j].at;
    var ms := h.minors[at := h.minors[at].(req := req)];
    var us := WithReq(runs, i, j, req);
    forall k: nat | k < |us| ensures ChainOk(ms, h.words, us[k]) {
      assert ChainOk(h.minors, h.words, runs[k]);
      forall l: nat | l < |us[k].cells| ensures MinorAt(ms, h.words, us[k], l) {
        assert MinorAt(h.minors, h.words, runs[k], l);
        AtUnique(runs, k, l, i, j);
      }
    }
  }

  /** A heap with one allocation of 4 bytes, made for an alignment of 4. */
  ghost predicate Misaligned(h: Links, runs: seq<Run>) {
    && runs == [Run(0x1000, 16, [Cell(0x1018, 8, 4, 0)])]
    && h == Links(map[0x1000 := Major(0, 0, 16, 0x1_0000, 56, 0x1018)], map[0x1018 := Minor(0, 0, 0x1000, 8, 4)],
                  map[0x1034 := 0], 0x1000, 0, 0x1_0000, 8)
  }

  /** Asked to make it 4 bytes aligned to 8, `realloc_bytes` shrinks in place: the payload stays at 0x1034. */
  lemma MisalignedExample(h: Links, runs: seq<Run>)
    requires Misaligned(h, runs)
    ensures Rep(h, runs) && AllNonEmpty(runs) && IsPayload(runs, 0, 0, 0x1034)
    ensures runs[0].cells[0].req >= 4 && AlignOk(8) && Rem(0x1034, 8) != 0
  {
    var c := Cell(0x1018, 8, 4, 0);
    UsedOne(c);
    AllOne(runs[0]);
    QuotRemUnique(0x1034, 8, 0x206, 4);
    QuotRemUnique(0x1_0000_0000, 8, 0x2000_0000, 0);
    assert MajorAt(h.majors, runs, 0) && MinorAt(h.minors, h.words, runs[0], 0);
  }

  /** What `memcpy` leaves of memory. */
  function Copied(m: int -> Byte, dst: nat, src: nat, n: nat): int -> Byte {
    a => if dst <= a < dst + n then m(src + a - dst) else m(a)
  }

  lemma CopiedAt(m: int -> Byte, dst: nat, src: nat, n: nat, a: int)
    ensures Copied(m, dst, src, n)(a) == if dst <= a < dst + n then m(src + a - dst) else m(a)
  {
  }

  /** Moving an allocation's bytes to where a new one begins leaves every other payload as it was, and the new one begins
      with them. */
  lemma MoveKeepsOthers(runs: seq<Run>, k: nat, l: nat, i: nat, j: nat, m: int -> Byte, src: nat, n: nat, x: nat)
    requires Layout(runs) && k < |runs| && l < |runs[k].cells| && i < |runs| && j < |runs[i].cells|
    requires n <= runs[k].cells[l].req && x < runs[i].cells[j].req
    ensures var t := Copied(m, runs[k].cells[l].Payload(), src, n);
      var a := runs[i].cells[j].Payload() + x;
      t(a) == if (i, j) == (k, l) && x < n then m(src + x) else m(a)
  {
    hide Layout, Copied;
    PayloadsSeparate(runs, i, j, k, l);
    PayloadsSeparate(runs, k, l, i, j);
    CopiedAt(m, runs[k].cells[l].Payload(), src, n, runs[i].cells[j].Payload() + x);
  }

  lemma RootIs(h: Links, runs: seq<Run>)
    requires Rep(h, runs)
    ensures h.memRoot == BaseAt(runs, 0) && (h.memRoot == 0 <==> runs == []) && (runs == [] ==> h.bestBet == 0)
  {
  }

  lemma SetBet(h: Links, runs: seq<Run>, i: nat)
    requires Rep(h, runs) && i < |runs|
    ensures Rep(h.(bestBet := runs[i].base), runs)
  {
  }

  /** Too few free bytes in all: no gap fits. An empty run with enough of them: the gap fits. */
  lemma FreeMeans(r: Run, need: nat)
    requires RunOk(r)
    ensures r.Size() - (MAJOR_SIZE + Used(r.cells)) < need ==> NoGap(r, need)
    ensures r.Size() - (MAJOR_SIZE + Used(r.cells)) >= need && r.cells == [] ==> Gap(r, 0, need)
  {
    if r.Size() - (MAJOR_SIZE + Used(r.cells)) < need {
      FirstCase(r, need);
    }
  }

  lemma VisitFacts(h: Links, runs: seq<Run>, i: nat, need: nat)
    requires Rep(h, runs) && i < |runs|
    ensures runs[i].base in h.majors
    ensures var m := h.majors[runs[i].base];
      && (m.size - m.usage < need ==> NoGap(runs[i], need))
      && (m.size - m.usage >= need && runs[i].cells == [] ==> Gap(runs[i], 0, need))
  {
    MajorIs(h, runs, i);
    FreeMeans(runs[i], need);
  }

  lemma PlacedMeans(runs: seq<Run>, grown: seq<Run>, us: seq<Run>, i: nat, j: nat, c: Cell)
    requires AllNonEmpty(runs) && PlacedIn(grown, us, i, j, c)
    requires grown == runs || (|grown| == |runs| + 1 && grown[..|runs|] == runs && i == |runs|)
    ensures !NoGap(grown[i], c.size + MINOR_SIZE) && AllNonEmpty(us)
    ensures grown == runs ==> !NoGaps(runs, 0, |runs|, c.size + MINOR_SIZE)
  {
    assert Gap(grown[i], j, c.size + MINOR_SIZE);
    forall k | 0 <= k < |us| ensures us[k].cells != [] {
      assert k != i ==> us[k] == runs[k];
    }
  }

  /** The allocation a request gets at `at`. */
  function CellIn(at: nat, size: nat, req: nat, align: nat): Cell
    requires align > 0
  {
    Cell(at, size, req, AlignOffset(at + MINOR_SIZE, align))
  }

  /** The size set aside for a request holds it, wherever it is put, exactly when computing that size did not wrap. */
  lemma RoomHoldsIff(req: nat, align: nat)
    requires AlignOk(align) && req < 0x1_0000_0000
    ensures (forall at: nat :: at + MINOR_SIZE + WORD < 0x1_0000_0000 ==> CellOk(CellIn(at, AllocSize(req, align), req, align)))
       <==> req + WORD + align - 1 < 0x1_0000_0000
  {
    if req + WORD + align - 1 < 0x1_0000_0000 {
      forall at: nat | at + MINOR_SIZE + WORD < 0x1_0000_0000 ensures CellOk(CellIn(at, AllocSize(req, align), req, align)) {
        AlignOffsetFits(at + MINOR_SIZE, align);
      }
    } else {
      assert AllocSize(req, align) < req;
      assert !CellOk(CellIn(0, AllocSize(req, align), req, align));
    }
  }

  /** It fits the gap, and its payload is aligned and inside it. */
  lemma CellFits(r: Run, j: nat, req: nat, align: nat)
    requires RunOk(r) && j <= |r.cells| && Sane(req, align) && Gap(r, j, AllocSize(req, align) + MINOR_SIZE)
    ensures var c := CellIn(r.GapStart(j), AllocSize(req, align), req, align);
      FitsGap(r, j, c) && Rem(c.Payload(), align) == 0
  {
    PagesHoldIff(req, align);
    assert r.GapEnd(j) <= r.End() && r.GapStart(j) <= r.GapEnd(j) by {
      WithinSplit(r, j);
    }
    hide RunOk;
    AlignOffsetFits(r.GapStart(j) + MINOR_SIZE, align);
  }

  ghost predicate AllNonEmpty(runs: seq<Run>) {
    forall i :: 0 <= i < |runs| ==> runs[i].cells != []
  }

  ghost predicate NoGaps(runs: seq<Run>, lo: nat, hi: nat, need: nat)
    requires hi <= |runs|
  {
    forall i :: lo <= i < hi ==> NoGap(runs[i], need)
  }

  /** What freeing allocation `j` of run `i` leaves: the run without it, or no run if it was the last. */
  function Reclaimed(runs: seq<Run>, i: nat, j: nat): seq<Run>
    requires i < |runs| && j < |runs[i].cells|
  {
    if |runs[i].cells| == 1 then Without(runs, i) else runs[i := Remove(runs[i], j)]
  }

  /** Freeing what was just allocated restores the runs, whether or not pages had to be added for it. */
  lemma FreeUndoesMalloc(runs: seq<Run>, grown: seq<Run>, us: seq<Run>, i: nat, j: nat, c: Cell)
    requires AllNonEmpty(runs) && PlacedIn(grown, us, i, j, c)
    requires grown == runs || (i == |runs| && |grown| == |runs| + 1 && grown[..i] == runs && grown[i].cells == [])
    ensures IsPayload(us, i, j, c.Payload()) && Reclaimed(us, i, j) == runs
  {
    RemoveInsert(grown[i], j, c);
    if grown == runs {
      assert us[i := Remove(us[i], j)] == runs;
    } else {
      assert Without(us, i) == runs;
    }
  }

  lemma FirstCase(r: Run, need: nat)
    requires RunOk(r) && r.Size() - (MAJOR_SIZE + Used(r.cells)) < need
    ensures NoGap(r, need)
  {
    forall j: nat | j <= |r.cells| ensures !Gap(r, j, need) {
      GapAtMostFree(r, j);
    }
  }

  lemma MajorIs(h: Links, runs: seq<Run>, i: nat)
    requires Rep(h, runs) && i < |runs|
    ensures runs[i].base in h.majors && h.majors[runs[i].base] == MajorOf(runs, i) && RunOk(runs[i]) && runs[i].base > 0
    ensures BaseAt(runs, i + 1) != 0 <==> i + 1 < |runs|
    ensures CellAt(runs[i], 0) == 0 <==> runs[i].cells == []
  {
    assert MajorAt(h.majors, runs, i);
    if i + 1 < |runs| {
      NonZeroBase(runs, i + 1);
    }
  }

  lemma MinorIs(h: Links, runs: seq<Run>, i: nat, j: nat)
    requires Rep(h, runs) && i < |runs| && j < |runs[i].cells|
    ensures var r := runs[i];
      && r.cells[j].at in h.minors && h.minors[r.cells[j].at] == MinorOf(r, j) && r.cells[j].at > 0
      && r.cells[j].Payload() in h.words && h.words[r.cells[j].Payload()] == r.cells[j].offset
      && (CellAt(r, j + 1) != 0 <==> j + 1 < |r.cells|)
  {
    assert MinorAt(h.minors, h.words, runs[i], j) by {
      assert ChainOk(h.minors, h.words, runs[i]);
    }
    AtUnique(runs, i, j, i, j);
    if j + 1 < |runs[i].cells| {
      AtUnique(runs, i, j + 1, i, j + 1);
    }
  }
}

/** The allocator, editing headers in place. The page provider is a parameter: the address it will answer with if it is
    asked for pages, or 0. */
module Heap {
  import opened Bytes
  import opened FreeList
  import opened HeapModel

  class HeapAllocator {
    var majors: map<nat, Major>
    var minors: map<nat, Minor>
    var words: map<nat, nat>
    var memRoot: nat
    var bestBet: nat
    var total: int
    var inuse: int
    var warnings: int
    var errors: int
    var memory: int -> Byte
    ghost var runs: seq<Run>

    function View(): Links
      reads this
    {
      Links(majors, minors, words, memRoot, bestBet, total, inuse)
    }

    ghost predicate Valid()
      reads this
    {
      Rep(View(), runs) && AllNonEmpty(runs)
    }

    constructor (m: int -> Byte)
      ensures Valid() && runs == [] && memory == m
    {
      majors, minors, words := map[], map[], map[];
      memRoot, bestBet, total, inuse, warnings, errors := 0, 0, 0, 0, 0, 0;
      memory, runs := m, [];
    }

    /** Asks the provider for pages; `last` is the run the new one comes after, 0 if it is the first. */
    method AllocateNewPage(last: nat, size: nat, page: nat) returns (maj: nat)
      requires Rep(View(), runs) && last == BaseAt(runs, |runs| - 1)
      requires page == 0 || FreshPages(runs, page, PagesFor(size))
      modifies this`majors, this`memRoot, this`total, this`warnings, this`runs
      ensures maj == page && Rep(View(), runs)
      ensures runs == if page == 0 then old(runs) else old(runs) + [Run(page, PagesFor(size), [])]
      ensures warnings == old(warnings) + (if page == 0 then 1 else 0)
    {
      hide Rep, FreshPages, PagesFor;
      maj := page;
      if maj == 0 {
        warnings := warnings + 1;
        return;
      }
      ghost var h := View();
      AppendedAdds(h, runs, page, PagesFor(size));
      LastApart(h, runs, page, PagesFor(size));
      var st := PagesFor(size);
      majors := majors[maj := Major(0, 0, st, st * 4096, MAJOR_SIZE, 0)];
      total := total + st * 4096;
      if last == 0 {
        memRoot := maj;
      } else {
        majors := majors[last := majors[last].(next := maj)];
        majors := majors[maj := majors[maj].(prev := last)];
      }
      runs := runs + [Run(page, st, [])];
      assert View().majors == Appended(h, last, page, st).majors;
    }

    /** Writes the header of a new allocation between `prev` and `next`, and the offset word before its payload. */
    method LinkAt(base: nat, prev: nat, next: nat, at: nat, size: nat, req: nat, align: nat, ghost i: nat, ghost j: nat)
        returns (p: nat, ghost c: Cell)
      requires Rep(View(), runs) && align > 0 && Sane(req, align) && size == AllocSize(req, align)
      requires i < |runs| && j <= |runs[i].cells| && base == runs[i].base && at == runs[i].GapStart(j)
      requires prev == CellAt(runs[i], j - 1) && next == CellAt(runs[i], j) && Gap(runs[i], j, size + MINOR_SIZE)
      modifies this`majors, this`minors, this`words, this`inuse, this`runs
      ensures Rep(View(), runs) && FitsGap(old(runs[i]), j, c) && runs == old(runs)[i := Insert(old(runs[i]), j, c)]
      ensures c.size == size && c.req == req && c.Payload() == p && Rem(p, align) == 0
    {
      hide Rep, Insert, FitsGap, Sane, AllocSize, AlignOffset, Gap, RunOk, MajorOf, CellAt, LinkedMinors;
      ghost var h := View();
      c := CellIn(at, size, req, align);
      MajorIs(h, runs, i);
      CellFits(runs[i], j, req, align);
      LinkedInserts(h, runs, i, j, c);
      LinkMinor(prev, next, at, Minor(prev, next, base, size, req));
      if prev == 0 {
        majors := majors[base := majors[base].(first := at)];
      }
      majors := majors[base := majors[base].(usage := majors[base].usage + size + MINOR_SIZE)];
      inuse := inuse + size;
      var start := at + MINOR_SIZE;
      var offset := AlignOffset(start, align);
      p := start + WORD + offset;
      words := words[p := offset];
      runs := runs[i := Insert(runs[i], j, c)];
      assert View() == Linked(h, base, prev, next, c);
    }

    method LinkMinor(prev: nat, next: nat, at: nat, min: Minor)
      modifies this`minors
      ensures minors == LinkedMinors(old(minors), prev, next, at, min)
    {
      minors := minors[at := min];
      if prev in minors && prev != 0 {
        minors := minors[prev := minors[prev].(next := at)];
      }
      if next in minors && next != 0 {
        minors := minors[next := minors[next].(prev := at)];
      }
    }

    /** Looks through one run for the first gap that is long enough: an empty run, the space in front, between two
        allocations, or after the last. */
    method TryRun(maj: nat, size: nat, req: nat, align: nat, ghost i: nat) returns (p: nat, ghost j: nat, ghost c: Cell)
      requires Rep(View(), runs) && align > 0 && Sane(req, align) && size == AllocSize(req, align)
      requires i < |runs| && maj == runs[i].base
      requires runs[i].cells == [] ==> Gap(runs[i], 0, size + MINOR_SIZE)
      modifies this`majors, this`minors, this`words, this`inuse, this`runs
      ensures Rep(View(), runs)
      ensures p == 0 ==> runs == old(runs) && NoGap(runs[i], size + MINOR_SIZE)
      ensures p != 0 ==> PlacedIn(old(runs), runs, i, j, c) && c.size == size && c.req == req && c.Payload() == p && Rem(p, align) == 0
    {
      hide Rep, Sane, AllocSize, FitsGap, Insert, RunOk, Used;
      MajorIs(View(), runs, i);
      ghost var r := runs[i];
      var m := majors[maj];
      c := Cell(0, 0, 0, 0);
      if m.first == 0 || m.first - maj - MAJOR_SIZE >= size + MINOR_SIZE {
        j := 0;
        p, c := LinkAt(maj, 0, m.first, maj + MAJOR_SIZE, size, req, align, i, 0);
        return;
      }
      var min := m.first;
      j := 0;
      while min != 0
        invariant runs == old(runs) && View() == old(View())
        invariant if min == 0 then j == |r.cells| - 1 else j < |r.cells| && min == r.cells[j].at
        invariant if min == 0 then NoGap(r, size + MINOR_SIZE) else NoGapBefore(r, j + 1, size + MINOR_SIZE)
        decreases |r.cells| - j, min
      {
        MinorIs(View(), runs, i, j);
        var x := minors[min];
        var end := if x.next == 0 then maj + m.size else x.next;
        NoGapNext(r, j + 1, size + MINOR_SIZE);
        if end - min - MINOR_SIZE - x.size >= size + MINOR_SIZE {
          j := j + 1;
          p, c := LinkAt(maj, min, x.next, min + MINOR_SIZE + x.size, size, req, align, i, j);
          return;
        }
        if x.next != 0 {
          j := j + 1;
        }
        min := x.next;
      }
      p := 0;
    }

    /** Serves a request, asking the provider for pages only if no run has a gap that is long enough; null only if the
        provider then has none. `grown` is the runs with the new pages, if any; the allocation went into gap `j` of run
        `i` of those. */
    method MallocBytes(req: nat, align: nat, page: nat)
        returns (p: nat, asked: bool, ghost grown: seq<Run>, ghost i: nat, ghost j: nat, ghost c: Cell)
      requires Valid() && align > 0 && Sane(req, align)
      requires page == 0 || FreshPages(runs, page, PagesFor(AllocSize(req, align)))
      modifies this`majors, this`minors, this`words, this`memRoot, this`bestBet, this`total, this`inuse, this`warnings, this`runs
      ensures Valid()
      ensures asked <==> NoGaps(old(runs), 0, |old(runs)|, AllocSize(req, align) + MINOR_SIZE)
      ensures p == 0 <==> asked && page == 0
      ensures grown == if asked && page != 0 then old(runs) + [Run(page, PagesFor(AllocSize(req, align)), [])] else old(runs)
      ensures p == 0 ==> runs == old(runs)
      ensures p != 0 ==> PlacedIn(grown, runs, i, j, c) && (asked ==> i == |old(runs)|)
      ensures p != 0 ==> c.size == AllocSize(req, align) && c.req == req && c.Payload() == p && Rem(p, align) == 0
    {
      hide Rep, Sane, AllocSize, Insert, RunOk, Used, FreshPages, PagesFor, NoGap, NoGaps, FitsGap, Gap, AllNonEmpty, PlacedIn;
      var size := AllocSize(req, align);
      ghost var need := size + MINOR_SIZE;
      ghost var extra := Run(page, PagesFor(size), []);
      NewRunFits(req, align, page);
      NoGapsNone(runs, need);
      p, asked, grown, i, j, c := 0, false, runs, 0, 0, Cell(0, 0, 0, 0);
      RootIs(View(), runs);
      var maj := memRoot;
      if maj == 0 {
        asked := true;
        maj := AllocateNewPage(0, size, page);
        if maj == 0 {
          return;
        }
        grown := runs;
      }
      var started, best;
      maj, started, best, i := StartRun(maj, size);
      while maj != 0
        invariant Rep(View(), runs) && runs == grown && !(started && asked)
        invariant grown == if asked && page != 0 then old(runs) + [extra] else old(runs)
        invariant maj != 0 ==> i < |runs| && maj == runs[i].base
        invariant maj == 0 ==> asked && page == 0
        invariant asked ==> NoGaps(old(runs), 0, |old(runs)|, need)
        invariant asked && page != 0 ==> i == |old(runs)|
        invariant !asked && !started ==> i <= |runs| && NoGaps(runs, 0, i, need)
        decreases if started then 1 else 0, if asked then 0 else 1, |runs| - i, maj
      {
        var diff;
        diff, best := NoteBet(maj, best, i, need);
        var brandNew := false;
        if diff < size + MINOR_SIZE {
          NoGapsNext(runs, i, need);
          maj, started, brandNew, i := Advance(maj, started, size, page, i);
          asked := asked || brandNew || maj == 0;
          grown := runs;
        }
        if diff >= size + MINOR_SIZE || brandNew {
          p, j, c := TryRun(maj, size, req, align, i);
          if p != 0 {
            PlacedMeans(old(runs), grown, runs, i, j, c);
            return;
          }
          NoGapsNext(runs, i, need);
          maj, started, brandNew, i := Advance(maj, started, size, page, i);
          asked := asked || brandNew || maj == 0;
          grown := runs;
        }
      }
    }

    /** The free bytes of a run; the run with the most so far is the best bet from now on. */
    method NoteBet(maj: nat, best: int, ghost i: nat, ghost need: nat) returns (diff: int, best': int)
      requires Rep(View(), runs) && i < |runs| && maj == runs[i].base
      modifies this`bestBet
      ensures Rep(View(), runs) && maj in majors && diff == majors[maj].size - majors[maj].usage
      ensures best' == (if best < diff then diff else best) && bestBet == if best < diff then maj else old(bestBet)
      ensures diff < need ==> NoGap(runs[i], need)
      ensures diff >= need && runs[i].cells == [] ==> Gap(runs[i], 0, need)
    {
      hide Rep, NoGap, Gap;
      VisitFacts(View(), runs, i, need);
      diff, best' := majors[maj].size - majors[maj].usage, best;
      if best < diff {
        SetBet(View(), runs, i);
        bestBet, best' := maj, diff;
      }
    }

    /** The run the search starts at: the best bet if it has room to spare, else the first. */
    method StartRun(root: nat, size: nat) returns (maj: nat, started: bool, best: int, ghost i: nat)
      requires Rep(View(), runs) && runs != [] && root == runs[0].base
      ensures i < |runs| && maj == runs[i].base && maj != 0 && (!started ==> i == 0)
      ensures started <==> bestBet != 0 && bestBet in majors
                           && majors[bestBet].size - majors[bestBet].usage > size + MINOR_SIZE
      ensures started ==> maj == bestBet
    {
      maj, started, best, i := root, false, 0, 0;
      NonZeroBase(runs, 0);
      if bestBet != 0 {
        assert BetOk(bestBet, runs);
        i :| i < |runs| && runs[i].base == bestBet;
        MajorIs(View(), runs, i);
        best := majors[bestBet].size - majors[bestBet].usage;
        if best > size + MINOR_SIZE {
          maj, started := bestBet, true;
        } else {
          i := 0;
        }
      }
    }

    /** The run after `maj`; after the last, back to the first if the search began at the best bet, else new pages. */
    method Advance(maj: nat, started: bool, size: nat, page: nat, ghost i: nat)
        returns (next: nat, started': bool, brandNew: bool, ghost i': nat)
      requires Rep(View(), runs) && i < |runs| && maj == runs[i].base
      requires page == 0 || FreshPages(runs, page, PagesFor(size))
      modifies this`majors, this`memRoot, this`total, this`warnings, this`runs
      ensures Rep(View(), runs) && (brandNew ==> next == page && next != 0)
      ensures runs == if brandNew then old(runs) + [Run(page, PagesFor(size), [])] else old(runs)
      ensures next != 0 ==> i' < |runs| && next == runs[i'].base
      ensures next == 0 ==> page == 0
      ensures if i + 1 < |old(runs)| then i' == i + 1 && started' == started && !brandNew && next != 0
              else !started' && (if started then i' == 0 && !brandNew && next != 0 else i' == |old(runs)| && (brandNew <==> page != 0) && next == page)
    {
      hide Rep, FreshPages, PagesFor, RunOk;
      MajorIs(View(), runs, i);
      next, started', brandNew, i' := majors[maj].next, started, false, i + 1;
      if next == 0 {
        if started {
          RootIs(View(), runs);
          next, started', i' := memRoot, false, 0;
        } else {
          next := AllocateNewPage(maj, size, page);
          brandNew := next != 0;
        }
      }
    }

    /** `UNALIGN`, then back over the header. */
    function HeaderOf(p: nat): int
      requires p in words
      reads this
    {
      p - (words[p] + WORD) - MINOR_SIZE
    }

    /** An address whose header no longer carries the magic number. */
    predicate Dead(p: nat)
      reads this
    {
      p in words && HeaderOf(p) !in minors
    }

    /** Frees an allocation; with its last one a run goes back to the provider. */
    method FreeBytes(p: nat) returns (ghost i: nat, ghost j: nat)
      requires Valid() && (p == 0 || Live(runs, p) || Dead(p))
      modifies this`majors, this`minors, this`memRoot, this`bestBet, this`total, this`inuse, this`warnings, this`errors, this`runs
      ensures Valid()
      ensures p != 0 && Live(old(runs), p) ==> IsPayload(old(runs), i, j, p) && runs == Reclaimed(old(runs), i, j)
                                               && warnings == old(warnings) && errors == old(errors)
      ensures p == 0 ==> View() == old(View()) && runs == old(runs) && warnings == old(warnings) + 1
      ensures p != 0 && !Live(old(runs), p) ==> View() == old(View()) && runs == old(runs) && errors == old(errors) + 1
    {
      hide Rep, Reclaimed, Remove, RunOk, Used, MinorOf, AllNonEmpty;
      i, j := 0, 0;
      if p == 0 {
        NullIsDead(View(), runs);
        warnings := warnings + 1;
        return;
      }
      if Live(runs, p) {
        i, j :| IsPayload(runs, i, j, p);
        LiveHeader(View(), runs, i, j, p);
      }
      var min := HeaderOf(p);
      if min !in minors {
        errors := errors + 1;
        return;
      }
      var maj := minors[min].block;
      UnlinkedRemoves(View(), runs, i, j);
      Unlink(min);
      ghost var was := runs;
      runs := runs[i := Remove(runs[i], j)];
      MajorIs(View(), runs, i);
      ReclaimedIs(was, i, j);
      if majors[maj].first == 0 {
        DroppedRemoves(View(), runs, i);
        Drop(maj);
        runs := Without(runs, i);
      } else if bestBet != 0 {
        BetIs(View(), runs);
        if majors[maj].size - majors[maj].usage > majors[bestBet].size - majors[bestBet].usage {
          SetBet(View(), runs, i);
          bestBet := maj;
        }
      }
    }

    method Unlink(at: nat)
      requires at in minors && minors[at].block in majors
      modifies this`majors, this`minors, this`inuse
      ensures View() == Unlinked(old(View()), at)
    {
      var min := minors[at];
      inuse := inuse - min.size;
      majors := majors[min.block := majors[min.block].(usage := majors[min.block].usage - (min.size + MINOR_SIZE))];
      if min.next in minors && min.next != 0 {
        minors := minors[min.next := minors[min.next].(prev := min.prev)];
      }
      if min.prev in minors && min.prev != 0 {
        minors := minors[min.prev := minors[min.prev].(next := min.next)];
      }
      if min.prev == 0 {
        majors := majors[min.block := majors[min.block].(first := min.next)];
      }
      minors := minors - {at};
      assert View().majors == Unlinked(old(View()), at).majors;
    }

    method Drop(maj: nat)
      requires maj in majors
      modifies this`majors, this`memRoot, this`bestBet, this`total
      ensures View() == Dropped(old(View()), maj)
    {
      var m := majors[maj];
      if memRoot == maj {
        memRoot := m.next;
      }
      if bestBet == maj {
        bestBet := 0;
      }
      if m.prev in majors && m.prev != 0 {
        majors := majors[m.prev := majors[m.prev].(next := m.next)];
      }
      if m.next in majors && m.next != 0 {
        majors := majors[m.next := majors[m.next].(prev := m.prev)];
      }
      total := total - m.size;
      majors := majors - {maj};
    }

    /** Grows by moving: the bytes asked for before are copied, then the old allocation is freed. Shrinks in place. When
        no memory is left the old allocation is freed all the same. `mid` is the runs between the two. */
    method ReallocBytes(p: nat, size: nat, align: nat, page: nat)
        returns (r: nat, ghost mid: seq<Run>, ghost i: nat, ghost j: nat)
      requires Valid() && align > 0 && Sane(size, align) && (p == 0 || Live(runs, p))
      requires page == 0 || FreshPages(runs, page, PagesFor(AllocSize(size, align)))
      modifies this
      ensures Valid()
      ensures p != 0 ==> IsPayload(old(runs), i, j, p)
      ensures p != 0 && size > 0 ==> var c := old(runs)[i].cells[j];
        if c.req >= size then
          r == p && memory == old(memory) && runs == WithReq(old(runs), i, j, size)
        else
          && (if r == 0 then mid == old(runs) else Carved(old(runs), mid, r, size, align))
          && FreedFrom(mid, runs, p)
          && memory == Copied(old(memory), r, p, c.req)
      ensures size > 0 && (p == 0 || old(runs)[i].cells[j].req < size) ==>
        (r == 0 <==> page == 0 && NoGaps(old(runs), 0, |old(runs)|, AllocSize(size, align) + MINOR_SIZE))
      ensures p != 0 && size > 0 && r != 0 ==>
        (Rem(r, align) == 0 <==> old(runs)[i].cells[j].req < size || Rem(p, align) == 0)
      ensures size == 0 ==> r == 0 && memory == old(memory) && (p != 0 ==> runs == Reclaimed(old(runs), i, j))
      ensures p == 0 && size > 0 ==> memory == old(memory) && (if r == 0 then runs == old(runs) else Carved(old(runs), runs, r, size, align))
    {
      hide Rep, Reclaimed, AllNonEmpty, Carved, FreedFrom, PlacedIn, FreshPages, PagesFor, Sane, AllocSize, WithReq, NoGaps, Rem;
      mid, i, j := runs, 0, 0;
      if size == 0 {
        i, j := FreeBytes(p);
        return 0, mid, i, j;
      }
      ghost var grown, k, l, c;
      var asked;
      if p == 0 {
        r, asked, grown, k, l, c := MallocBytes(size, align, page);
        if r != 0 {
          CarvedIs(old(runs), grown, runs, k, l, c, align);
        }
        return r, mid, i, j;
      }
      i, j :| IsPayload(runs, i, j, p);
      LiveHeader(View(), runs, i, j, p);
      var min := HeaderOf(p);
      var oldSize := minors[min].req;
      if oldSize >= size {
        ShrinkKeeps(View(), runs, i, j, size);
        minors := minors[min := minors[min].(req := size)];
        runs := WithReq(runs, i, j, size);
        return p, mid, i, j;
      }
      r, asked, grown, k, l, c := MallocBytes(size, align, page);
      mid := runs;
      if r != 0 {
        CarvedIs(old(runs), grown, mid, k, l, c, align);
        PayloadKept(old(runs), grown, mid, k, l, c, i, j, p);
      }
      Copy(r, p, oldSize);
      ghost var i', j' := FreeBytes(p);
      FreedIs(mid, runs, i', j', p);
    }

    /** `memcpy`. */
    method Copy(dst: nat, src: nat, n: nat)
      modifies this`memory
      ensures memory == Copied(old(memory), dst, src, n)
    {
      memory := Copied(memory, dst, src, n);
    }
  }
}
