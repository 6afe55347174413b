/**
 The heap on the map that start.asm leaves: what mm and runs of malloc do while they stay within the first 4 MiB of the
 kernel area, where no page is added, and what the first request past it does.
 */
module BootHeap {
  import opened Machine
  import opened Frames
  import opened Paging
  import opened Access
  import opened Boot
  import Heap
  import Headers
  import Mm

  /** The frames under the boot map's kernel pages that are not reserved. */
  ghost function Spare(r: nat): set<nat> { Interval(r, if r <= BOOT_FRAMES then BOOT_FRAMES - r else 0) }

  lemma SpareFills(r: nat)
    requires r <= BOOT_FRAMES
    ensures Interval(0, r) + Spare(r) == Interval(0, BOOT_FRAMES)
  {
  }

  /** The first page that the boot map leaves unmapped is 0xC0400. */
  lemma BootIsTop(m: Memory, pd: nat, low: nat, high: nat)
    requires pd < MAX_FRAMES && low < MAX_FRAMES && high < MAX_FRAMES && BootMap(m, pd, low, high)
    ensures IsTop(m, pd, BOOT_PAGES)
  {
    hide BootMap, Translate;
    forall pg | FIRST_PAGE <= pg <= BOOT_PAGES ensures Translate(m, pd, pg).Some? <==> pg < BOOT_PAGES {
      BootTranslates(m, pd, low, high, pg);
    }
  }

  /** Stores to data pages leave the boot tables alone. */
  lemma BootStays(m: Memory, n: Memory, pd: nat, low: nat, high: nat, all: set<nat>)
    requires pd < MAX_FRAMES && low < MAX_FRAMES && high < MAX_FRAMES && BootMap(m, pd, low, high) && Untouched(m, n, pd, all)
    ensures BootMap(n, pd, low, high)
  {
    hide SameMap;
    assert Table(m, pd, 0) == low && Table(m, pd, 768) == high;
    assert !DataFrame(m, pd, all, pd) && !DataFrame(m, pd, all, low) && !DataFrame(m, pd, all, high);
  }

  /** The memory that mm finds clear: frame 0, and all behind the frames of the boot map's kernel pages. */
  ghost predicate ClearAtBoot(m: Memory) {
    ClearFree(m, Interval(0, BOOT_FRAMES)) && forall p :: 0 <= p < 1024 ==> m[0][p] == ZERO
  }

  /** Frame `f` lies below the frame of the heap's first page, in the kernel's image. */
  predicate InImage(f: nat, start: u32) { f < 0x100 + start / 0x1000 - FIRST_PAGE }

  /**
   The state in which mm runs: the boot map with frames [0, r) reserved, `r` being the end of the kernel and its modules at
   `start`, where the heap begins. The directory and its tables lie in the kernel's image; frame 0 and all memory behind
   the boot map's frames are clear.
   */
  ghost predicate AtBoot(space: AddressSpace, start: u32, r: nat, low: nat, high: nat)
    reads space, space.frames, space.frames.bitmap
  {
    && low < MAX_FRAMES && high < MAX_FRAMES && space.pd < MAX_FRAMES && BootMap(space.phys, space.pd, low, high)
    && space.Base() && 0xC000_0000 <= start && r == Pages(0, start - 0xC000_0000 + 0x10_0000)
    && space.frames.reserved == Interval(0, r) && space.frames.held == {} && space.frames.frameIdx == r
    && InImage(space.pd, start) && InImage(low, start) && InImage(high, start) && ClearAtBoot(space.phys)
  }

  /** Such a state exists: 16 MiB of memory, and a kernel that ends at 0xC0100000. */
  method BootState() returns (space: AddressSpace)
    ensures fresh(space) && fresh(space.frames) && fresh(space.frames.bitmap)
    ensures AtBoot(space, 0xC010_0000, 0x200, 0x111, 0x112) && space.frames.framesCount == 0x1000
  {
    hide Inv, Marked, BootMap, BootMemory, Directory, Entries, ClearFree, ClearAtBoot, Interval, Pages, FreeAfter, SetupEnds;
    BootNumbers();
    var frames := new FrameAllocator(0x100_0000, 0, 0x20_0000);
    space := new AddressSpace(frames, 0x110, BootMemory());
    BootMapExists();
    BootMemoryClear();
    BootTaken();
    assert space.Taken() == Interval(0, 0x200);
  }

  lemma BootNumbers()
    ensures SetupEnds(0, 0x20_0000) && Pages(0, 0x20_0000) == 0x200
    ensures 0 in Interval(0, 0x200) && 0x110 in Interval(0, 0x200)
  {
    hide Interval;
  }

  lemma BootMemoryClear()
    ensures ClearAtBoot(BootMemory())
  {
    hide BootMemory, BootFrame, Interval;
  }

  lemma BootTaken()
    ensures Directory(BootMemory(), 0x110, Interval(0, 0x200))
  {
    hide BootMemory, BootMap, Directory, Interval, Entries;
    BootMapExists();
    assert {0, 0x110, 0x111, 0x112} <= Interval(0, 0x200);
    GrowDirectory(BootMemory(), 0x110, {0, 0x110, 0x111, 0x112}, Interval(0, 0x200));
  }

  /** How many frames mm reserves, for a heap that starts within the boot map. */
  lemma ReservedAtBoot(start: u32, r: nat)
    requires 0xC000_0000 <= start < 0xC040_0000 && r == Pages(0, start - 0xC000_0000 + 0x10_0000)
    ensures 0x100 <= r <= BOOT_FRAMES && r - 1 <= 0x100 + (start / 0x1000 - FIRST_PAGE) <= r
    ensures start <= 0xC000_0000 + (r - 0x100) * 0x1000
  {
  }

  /** At boot the heap's pages are data pages, if the frames behind the reserved ones count as theirs. */
  lemma BootTidy(m: Memory, pd: nat, low: nat, high: nat, start: u32, r: nat, lim: nat)
    requires pd < MAX_FRAMES && low < MAX_FRAMES && high < MAX_FRAMES && BootMap(m, pd, low, high)
    requires 0xC000_0000 <= start < 0xC040_0000 && r == Pages(0, start - 0xC000_0000 + 0x10_0000) && BOOT_PAGES <= lim < PAGES
    requires InImage(pd, start) && InImage(low, start) && InImage(high, start) && ClearAtBoot(m)
    ensures Tidy(m, pd, Interval(0, r) + Spare(r), start / 0x1000, lim)
  {
    hide BootMap, Tidy, ClearFree, Interval, Pages;
    ReservedAtBoot(start, r);
    SpareFills(r);
    BootTidyIff(m, pd, low, high, BOOT_FRAMES, start / 0x1000, lim);
  }

  /** The heap after mm: the root block alone. */
  function RootBlocks(start: u32): seq<Heap.Block> { [Heap.Block(start, false, 1)] }

  /** Without holes every run is safe. */
  lemma {:induction false} NoHolesSafe(bs: seq<Heap.Block>, top: nat, sizes: seq<nat>)
    requires Heap.NoHoles(bs)
    ensures Heap.SafeRun(bs, top, sizes)
    decreases |sizes|
  {
    if sizes != [] {
      Heap.NoHolesAppends(bs, top, sizes[0]);
      NoHolesSafe(Heap.Serve(bs, top, sizes[0]), Heap.ServeTop(bs, top, sizes[0]), sizes[1..]);
    }
  }

  /** The end of the heap after a run from mm. */
  function EndOf(start: u32, sizes: seq<u32>): nat { Heap.Run(RootBlocks(start), start + 21, sizes).1 }

  lemma EndAbove(start: u32, sizes: seq<u32>)
    requires forall i :: 0 <= i < |sizes| ==> sizes[i] > 0
    ensures EndOf(start, sizes) >= start + 21 && Heap.SafeRun(RootBlocks(start), start + 21, sizes)
  {
    NoHolesSafe(RootBlocks(start), start + 21, sizes);
    Heap.RunTiles(RootBlocks(start), start, start + 21, sizes);
  }

  /** mm, from the loop that maps the kernel again to the root block. */
  method MmFromBoot(space: AddressSpace, start: u32, ghost r: nat, ghost low: nat, ghost high: nat) returns (h: Mm.KernelHeap)
    requires AtBoot(space, start, r, low, high) && start + 21 <= 0xC040_0000
    modifies space`phys, space.frames`frameIdx, space.frames`framesFree, space.frames`held, space.frames.bitmap
    ensures fresh(h) && h.space == space && h.root == start && h.mallocTop == start + 21 && h.heap == 0
    ensures Heap.Lists(h.View(), RootBlocks(start)) && Headers.Stored(space.phys, space.pd, h.mem, RootBlocks(start))
    ensures AtBoot(space, start, r, low, high) && h.OnData(0xC_0401, Spare(r)) && IsTop(space.phys, space.pd, BOOT_PAGES)
    ensures AddressSpace.Unused(old(space.frames.View()), old(space.frames.frameIdx), space.frames)
  {
    hide Inv, Directory, BootMap, Tidy, ClearAtBoot, Interval, Spare, InImage, IsTop, Headers.Stored, Headers.HeaderBytes, Heap.Lists,
         StoreBytes, Reaches, Untouched, Pages, Entries;
    ReservedAtBoot(start, r);
    ghost var m, pd, all := space.phys, space.pd, Interval(0, r) + Spare(r);
    var done := MapKernel(space, start, low, high);
    BootTidy(m, pd, low, high, start, r, 0xC_0401);
    BootIsTop(m, pd, low, high);
    ghost var b := Heap.MBlock(false, 1, start + 20, 0);
    RootFits(m, pd, all, start, b);
    h := new Mm.KernelHeap(space, start);
    BootStays(m, space.phys, pd, low, high, all);
    UntouchedDirectory(m, space.phys, pd, space.Taken(), all);
    Mm.SameTop(m, space.phys, pd, all, BOOT_PAGES);
    StillClear(m, space.phys, pd, all, r);
    assert space.Taken() + Spare(r) == all;
  }

  lemma RootFits(m: Memory, pd: nat, all: set<nat>, start: u32, b: Heap.MBlock)
    requires pd < MAX_FRAMES && 0xC000_0000 <= start && start + 21 <= 0xC040_0000
    requires Tidy(m, pd, all, start / 0x1000, 0xC_0401) && IsTop(m, pd, BOOT_PAGES)
    ensures Reaches(m, pd, start, Headers.HeaderBytes(b))
    ensures var n := StoreBytes(m, pd, start, Headers.HeaderBytes(b));
            && Tidy(n, pd, all, start / 0x1000, 0xC_0401) && Untouched(m, n, pd, all)
            && Headers.Stored(n, pd, map[start := b], [Heap.Block(start, b.hole, b.size)])
  {
    hide Tidy, IsTop, StoreBytes, Reaches, Headers.HeaderBytes, Headers.Stored, Untouched, Backed;
    Mm.BackedIff(m, pd, all, start / 0x1000, 0xC_0401, BOOT_PAGES, start);
    ReachesIff(m, pd, all, start / 0x1000, 0xC_0401, start, Headers.HeaderBytes(b));
    Headers.RootStored(m, pd, all, 0xC_0401, start, b);
  }

  /** Stores to data pages leave clear what was to be clear. */
  lemma StillClear(m: Memory, n: Memory, pd: nat, all: set<nat>, r: nat)
    requires pd < MAX_FRAMES && Untouched(m, n, pd, all) && r <= BOOT_FRAMES && all == Interval(0, r) + Spare(r) && ClearAtBoot(m)
    ensures ClearAtBoot(n)
  {
    hide SameMap, Interval, Spare;
    SpareFills(r);
    assert !DataFrame(m, pd, all, 0);
    forall f: nat, p | f < MAX_FRAMES && 0 <= p < 1024 && f !in Interval(0, BOOT_FRAMES) ensures n[f][p] == ZERO {
      assert !DataFrame(m, pd, all, f);
    }
  }

  /**
   Runs of malloc from boot that end within the boot map, whatever is requested: all of them get through. The heap is the
   list of the run, memory holds its headers, the payloads are apart, and the allocator and the page map are as mm left them.
   */
  method RunFromBoot(space: AddressSpace, start: u32, sizes: seq<u32>, ghost r: nat, ghost low: nat, ghost high: nat)
    returns (h: Mm.KernelHeap, addrs: seq<u32>)
    requires AtBoot(space, start, r, low, high) && (forall i :: 0 <= i < |sizes| ==> sizes[i] > 0)
    requires EndOf(start, sizes) <= 0xC040_0000
    modifies space`phys, space.frames`frameIdx, space.frames`framesFree, space.frames`held, space.frames.bitmap
    ensures h.space == space && h.root == start && |addrs| == |sizes| && h.mallocTop == EndOf(start, sizes)
    ensures var bs := Heap.Run(RootBlocks(start), start + 21, sizes).0;
            Heap.Lists(h.View(), bs) && Headers.Stored(space.phys, space.pd, h.mem, bs)
    ensures forall i, j :: 0 <= i < j < |addrs| ==> Heap.Disjoint(addrs[i], sizes[i], addrs[j], sizes[j])
    ensures AtBoot(space, start, r, low, high)
    ensures AddressSpace.Unused(old(space.frames.View()), old(space.frames.frameIdx), space.frames)
  {
    hide Inv, Directory, BootMap, Tidy, ClearAtBoot, Interval, Spare, InImage, IsTop, Headers.Stored, Heap.Lists, Untouched, Pages,
         Heap.Run, Heap.SafeRun, Headers.LiveKept, Heap.Disjoint, Entries;
    EndAbove(start, sizes);
    ReservedAtBoot(start, r);
    h := MmFromBoot(space, start, r, low, high);
    ghost var m, pd, all := space.phys, space.pd, Interval(0, r) + Spare(r);
    assert space.Taken() + Spare(r) == all;
    var end;
    ghost var n;
    addrs, end, n := h.MallocRun(sizes, RootBlocks(start), 0xC_0401, BOOT_PAGES, Spare(r));
    assert space.Taken() + Spare(r) == all;
    BootStays(m, space.phys, pd, low, high, all);
    StillClear(m, space.phys, pd, all, r);
  }

  // -------------------------------------------------- the first request past the boot map

  /** Addresses `a` and `b` lead to one and the same byte of physical memory. */
  ghost predicate SameByte(m: Memory, pd: nat, a: nat, b: nat)
    requires pd < MAX_FRAMES
  {
    && a < MEMORY && b < MEMORY && a % 0x1000 == b % 0x1000
    && Translate(m, pd, a / 0x1000).Some? && Translate(m, pd, a / 0x1000) == Translate(m, pd, b / 0x1000)
  }

  /** Two of the bytes [lo, hi) are the same byte of memory. */
  ghost predicate Shared(m: Memory, pd: nat, lo: nat, hi: nat) {
    pd < MAX_FRAMES && exists a: nat, b: nat :: lo <= a < b < hi && SameByte(m, pd, a, b)
  }

  lemma NotShared(m: Memory, pd: nat, lo: nat, hi: nat, end: nat)
    requires pd < MAX_FRAMES && end <= PAGES && hi <= end * 0x1000 && Injective(m, pd, lo / 0x1000, end)
    ensures !Shared(m, pd, lo, hi)
  {
    hide Translate;
    forall a: nat, b: nat | lo <= a < b < hi ensures !SameByte(m, pd, a, b) {
      if a % 0x1000 == b % 0x1000 {
        assert lo / 0x1000 <= a / 0x1000 < b / 0x1000 < end;
      }
    }
  }

  /** A byte stored at one address is read at the other, when their frame holds no part of the page map. */
  lemma SharedStore(m: Memory, pd: nat, a: nat, b: nat, x: u8)
    requires pd < MAX_FRAMES && SameByte(m, pd, a, b)
    requires var f := Translate(m, pd, a / 0x1000).value; f != pd && forall t :: 0 <= t < 1024 ==> Table(m, pd, t) != f
    ensures LoadByte(StoreByte(m, pd, a, x), pd, b) == Some(x)
  {
    hide SetByte, WordByte;
    var f, i := Translate(m, pd, a / 0x1000).value, a / 4 % 1024;
    FrameNumber(m, pd, a / 0x1000);
    AddressParts(a);
    AddressParts(b);
    var w := SetByte(m[f][i], a % 4, x);
    var n := Put(m, f, i, w);
    assert forall t :: 0 <= t < 1024 ==> n[pd][t] == m[pd][t];
    var q := b / 0x1000;
    assert n[Table(m, pd, q / 1024)][q % 1024] == m[Table(m, pd, q / 1024)][q % 1024];
    SetByteReads(m[f][i], a % 4, x, b % 4);
  }

  /** The page of the boot map that frame `f` lies under. */
  function PageOfFrame(f: nat): int { FIRST_PAGE + f - 0x100 }

  /** Frame `f`, which is no part of the page map, lies under a page of the heap and under page 0xC0400 too. */
  ghost predicate Overlaid(m: Memory, pd: nat, start: u32, f: nat) {
    && pd < MAX_FRAMES && FIRST_PAGE <= PageOfFrame(f) < BOOT_PAGES && start <= PageOfFrame(f) * 0x1000
    && Translate(m, pd, PageOfFrame(f)) == Some(f) == Translate(m, pd, BOOT_PAGES)
    && f != pd && forall t :: 0 <= t < 1024 ==> Table(m, pd, t) != f
  }

  /** The heap is to reach past the boot map, with a group to be had whose frames lie under it. */
  predicate PastBoot(end: nat, r: nat) { end >= 0xC040_0000 && 8 * ((r + 7) / 8) < BOOT_FRAMES }

  /** The first frame given out lies under a page of the heap, and the first page added is mapped to it too. */
  lemma GrownShares(s: Start, low: nat, high: nat, r: nat, before: State, after: State,
                    m: Memory, hi: nat, held: set<nat>, free: int, tables: set<nat>, start: u32)
    requires s.pd < MAX_FRAMES && low < MAX_FRAMES && high < MAX_FRAMES && BootMap(s.phys, s.pd, low, high)
    requires FromSetup(s, r, before, after, held) && BOOT_PAGES < hi <= PAGES && s.pd in s.taken
    requires Grown(s, m, BOOT_PAGES, hi, held, free, tables) && Translate(m, s.pd, BOOT_PAGES) == Some(NextFrame(before, r))
    requires 0xC000_0000 <= start < 0xC040_0000 && r == Pages(0, start - 0xC000_0000 + 0x10_0000)
    requires 8 * ((r + 7) / 8) < BOOT_FRAMES
    ensures Overlaid(m, s.pd, start, 8 * ((r + 7) / 8))
  {
    hide BootMap, FromSetup, NextFrame, Grown, Pages, Translate, Table;
    var f := 8 * ((r + 7) / 8);
    ReservedAtBoot(start, r);
    FirstFrame(s, r, before, after, m, hi, held, free, tables);
    BootTranslates(s.phys, s.pd, low, high, PageOfFrame(f));
    KeptBelow(s, m, hi, held, free, tables, PageOfFrame(f));
    AddedNoTable(s, m, hi, held, free, tables, BOOT_PAGES);
  }

  lemma AddedNoTable(s: Start, m: Memory, hi: nat, held: set<nat>, free: int, tables: set<nat>, pg: nat)
    requires s.pd < MAX_FRAMES && BOOT_PAGES <= pg < hi <= PAGES && Grown(s, m, BOOT_PAGES, hi, held, free, tables) && s.pd in s.taken
    ensures Translate(m, s.pd, pg).Some?
    ensures var f := Translate(m, s.pd, pg).value; f != s.pd && forall t :: 0 <= t < 1024 ==> Table(m, s.pd, t) != f
  {
    hide Translate, Table, MappedKept, TablesFrom, DataKept;
    assert Translate(m, s.pd, pg).value in FramesOf(m, s.pd, BOOT_PAGES, hi);
  }

  /** The first page added gets the first frame of the first group behind the reserved ones. */
  lemma FirstFrame(s: Start, r: nat, before: State, after: State,
                   m: Memory, hi: nat, held: set<nat>, free: int, tables: set<nat>)
    requires s.pd < MAX_FRAMES && FromSetup(s, r, before, after, held) && BOOT_PAGES < hi <= PAGES
    requires Grown(s, m, BOOT_PAGES, hi, held, free, tables) && Translate(m, s.pd, BOOT_PAGES) == Some(NextFrame(before, r))
    ensures Translate(m, s.pd, BOOT_PAGES) == Some(8 * ((r + 7) / 8))
  {
    hide Inv, NextFrame, MappedKept, TablesFrom, DataKept, OwnFrames, Translate, Interval;
    var f := Translate(m, s.pd, BOOT_PAGES).value;
    assert f in FramesOf(m, s.pd, BOOT_PAGES, hi);
    hide FramesOf;
    HeldAbove(after, r, held, f);
    HeldBelow(after, r, held, f);
    FirstGet(before, r);
  }

  lemma KeptBelow(s: Start, m: Memory, hi: nat, held: set<nat>, free: int, tables: set<nat>, pg: nat)
    requires s.pd < MAX_FRAMES && BOOT_PAGES <= hi <= PAGES && pg < BOOT_PAGES
    requires Grown(s, m, BOOT_PAGES, hi, held, free, tables) && Translate(s.phys, s.pd, pg).Some?
    ensures Translate(m, s.pd, pg) == Translate(s.phys, s.pd, pg)
  {
    hide OwnFrames, TablesFrom, DataKept, FramesOf, Translate;
  }

  /** When every frame given out lies behind the boot map's, no two pages of the kernel area have one frame. */
  lemma GrownApart(s: Start, low: nat, high: nat, r: nat, before: State, after: State,
                   m: Memory, hi: nat, held: set<nat>, free: int, tables: set<nat>)
    requires s.pd < MAX_FRAMES && low < MAX_FRAMES && high < MAX_FRAMES && BootMap(s.phys, s.pd, low, high)
    requires FromSetup(s, r, before, after, held) && BOOT_PAGES <= hi <= PAGES
    requires Grown(s, m, BOOT_PAGES, hi, held, free, tables)
    requires BOOT_PAGES == hi || 8 * ((r + 7) / 8) >= BOOT_FRAMES
    ensures Injective(m, s.pd, FIRST_PAGE, hi)
  {
    hide BootMap, Inv, MappedKept, TablesFrom, DataKept, Translate, Grown, Interval;
    forall pg: nat | FIRST_PAGE <= pg < hi
      ensures if pg < BOOT_PAGES then Translate(m, s.pd, pg) == Some(0x100 + (pg - FIRST_PAGE))
              else Translate(m, s.pd, pg).Some? && Translate(m, s.pd, pg).value >= BOOT_FRAMES
    {
      if pg < BOOT_PAGES {
        BootTranslates(s.phys, s.pd, low, high, pg);
        KeptBelow(s, m, hi, held, free, tables, pg);
      } else {
        AddedFrame(s, m, hi, held, free, tables, pg);
        HeldAbove(after, r, held, Translate(m, s.pd, pg).value);
      }
    }
    AddedApart(s, m, hi, held, free, tables);
  }

  lemma AddedFrame(s: Start, m: Memory, hi: nat, held: set<nat>, free: int, tables: set<nat>, pg: nat)
    requires s.pd < MAX_FRAMES && BOOT_PAGES <= pg < hi <= PAGES && Grown(s, m, BOOT_PAGES, hi, held, free, tables)
    ensures Translate(m, s.pd, pg).Some? && Translate(m, s.pd, pg).value in held
  {
    hide Translate;
    assert Translate(m, s.pd, pg).value in FramesOf(m, s.pd, BOOT_PAGES, hi);
  }

  lemma AddedApart(s: Start, m: Memory, hi: nat, held: set<nat>, free: int, tables: set<nat>)
    requires s.pd < MAX_FRAMES && BOOT_PAGES <= hi <= PAGES && Grown(s, m, BOOT_PAGES, hi, held, free, tables)
    ensures Injective(m, s.pd, BOOT_PAGES, hi)
  {
    hide Translate;
  }

  /** Every byte of the page that frame `f` lies under is the byte at the same place of page 0xC0400. */
  lemma OverlaidBytes(m: Memory, pd: nat, start: u32, f: nat, k: nat, x: u8)
    requires pd < MAX_FRAMES && Overlaid(m, pd, start, f) && k < 0x1000
    ensures var a, b := PageOfFrame(f) * 0x1000 + k, 0xC040_0000 + k;
            && start <= a < 0xC040_0000 && SameByte(m, pd, a, b)
            && LoadByte(StoreByte(m, pd, b, x), pd, a) == Some(x)
  {
    hide Translate, StoreByte, LoadByte, Table;
    var a, b := PageOfFrame(f) * 0x1000 + k, 0xC040_0000 + k;
    PlaceInPage(PageOfFrame(f), k);
    PlaceInPage(BOOT_PAGES, k);
    SharedStore(m, pd, b, a, x);
  }

  lemma PlaceInPage(pg: nat, k: nat)
    requires k < 0x1000 && pg < PAGES
    ensures (pg * 0x1000 + k) / 0x1000 == pg && (pg * 0x1000 + k) % 0x1000 == k && pg * 0x1000 + k < MEMORY
  {
  }

  /**
   expand for the block of `size` bytes at `top`, from a heap within the boot map. With a frame to be had, two bytes of the
   heap become one exactly when malloc_top + size reaches 0xC0400000 and the first group behind the reserved frames starts
   below frame 0x500: the first frame given out lies under a page of the heap.
   */
  method ExpandFromBoot(space: AddressSpace, start: u32, top: u32, size: u32, ghost r: nat, ghost low: nat, ghost high: nat)
    returns (limit: Option<u32>)
    requires start < top <= 0xC040_0000 && top + size < 0xDFFF_0000
    requires AtBoot(space, start, r, low, high) && space.frames.framesFree > 0
    modifies space`phys, space.frames`frameIdx, space.frames`framesFree, space.frames`held, space.frames.bitmap
    ensures space.frames.Valid() && (limit.None? ==> !HasFreeGroup(space.frames.View()))
    ensures limit.Some? && PastBoot(top + size, r) ==>
              Overlaid(space.phys, space.pd, start, 8 * ((r + 7) / 8)) && Shared(space.phys, space.pd, start, top + size + 1)
    ensures limit.Some? && space.frames.framesFree > 0 ==>
              (Shared(space.phys, space.pd, start, top + size + 1) <==> PastBoot(top + size, r))
  {
    hide BootMap, Inv, Directory, Entries, ClearAtBoot, Translate, Grown, RawTop, KeptOutside, HasFreeGroup, NextFrame, Pages,
         Interval, Shared, Overlaid, InImage, ClearFree, PastBoot;
    ghost var s, before, end, first, tables := space.Snapshot(), space.frames.View(), 0, 0, {};
    limit, first, end, tables := space.PageMapUntil(top + size);
    if limit.Some? {
      BootFirst(s.phys, s.pd, low, high, start, r, first);
      assert s.taken == Interval(0, r);
      ReservedAtBoot(start, r);
      AfterExpand(s, low, high, r, before, space.frames.View(), space.phys, end, space.frames.held, space.frames.framesFree, tables,
                  start, top, size);
    }
  }

  /** page_upper finds the end of the boot map. */
  lemma BootFirst(m: Memory, pd: nat, low: nat, high: nat, start: u32, r: nat, first: nat)
    requires pd < MAX_FRAMES && low < MAX_FRAMES && high < MAX_FRAMES && BootMap(m, pd, low, high) && ClearAtBoot(m)
    requires 0xC000_0000 <= start < 0xC040_0000 && r == Pages(0, start - 0xC000_0000 + 0x10_0000)
    requires InImage(pd, start) && InImage(low, start) && InImage(high, start) && RawTop(m, pd, first)
    ensures first == BOOT_PAGES
  {
    hide BootMap, RawTop, Pages, Interval;
    ReservedAtBoot(start, r);
    BootSound(m, pd, low, high, Interval(0, r));
    RawTopIsTop(m, pd, Interval(0, r), first);
    BootIsTop(m, pd, low, high);
    TopUnique(m, pd, first, BOOT_PAGES);
  }

  lemma AfterExpand(s: Start, low: nat, high: nat, r: nat, before: State, after: State, m: Memory, hi: nat, held: set<nat>, free: int,
                    tables: set<nat>, start: u32, top: u32, size: u32)
    requires s.pd < MAX_FRAMES && low < MAX_FRAMES && high < MAX_FRAMES && BootMap(s.phys, s.pd, low, high)
    requires FromSetup(s, r, before, after, held) && BOOT_PAGES <= hi <= PAGES && s.pd in s.taken
    requires Grown(s, m, BOOT_PAGES, hi, held, free, tables)
    requires hi > BOOT_PAGES ==> Translate(m, s.pd, BOOT_PAGES) == Some(NextFrame(before, r))
    requires 0xC000_0000 <= start < top <= 0xC040_0000 && r == Pages(0, start - 0xC000_0000 + 0x10_0000) && top + size < 0xDFFF_0000
    requires top + size >= 0xC040_0000 <==> hi > BOOT_PAGES
    requires free > 0 ==> top + size < hi * 0x1000
    ensures PastBoot(top + size, r) ==>
              Overlaid(m, s.pd, start, 8 * ((r + 7) / 8)) && Shared(m, s.pd, start, top + size + 1)
    ensures free > 0 ==> (Shared(m, s.pd, start, top + size + 1) <==> PastBoot(top + size, r))
  {
    hide BootMap, FromSetup, Grown, NextFrame, Translate, Pages, Table;
    if PastBoot(top + size, r) {
      var f := 8 * ((r + 7) / 8);
      GrownShares(s, low, high, r, before, after, m, hi, held, free, tables, start);
      OverlaidBytes(m, s.pd, start, f, 0, 0);
      SameBytes(m, s.pd, PageOfFrame(f) * 0x1000, 0xC040_0000);
    } else if free > 0 {
      GrownApart(s, low, high, r, before, after, m, hi, held, free, tables);
      InjectiveFrom(m, s.pd, FIRST_PAGE, start / 0x1000, hi);
      NotShared(m, s.pd, start, top + size + 1, hi);
    }
  }

  lemma SameBytes(m: Memory, pd: nat, a: nat, b: nat)
    requires pd < MAX_FRAMES && SameByte(m, pd, a, b) && a < b
    ensures forall lo: nat, hi: nat :: lo <= a && b < hi ==> Shared(m, pd, lo, hi)
  {
    hide SameByte;
  }

  lemma InjectiveFrom(m: Memory, pd: nat, lo: nat, lo': nat, hi: nat)
    requires pd < MAX_FRAMES && hi <= PAGES && lo <= lo' && Injective(m, pd, lo, hi)
    ensures Injective(m, pd, lo', hi)
  {
    hide Translate;
  }

  /** Both bytes are in use: each lies in a block of the list that malloc leaves. */
  lemma SharedInUse(bs: seq<Heap.Block>, start: nat, top: nat, size: nat, a: nat) returns (i: nat)
    requires Heap.Tiled(bs, start, top) && Heap.NoHoles(bs) && start <= a < top + 20 + size
    ensures var cs := bs + [Heap.Block(top, false, size)];
            i < |cs| && cs[i].at <= a < cs[i].End() && !cs[i].hole
  {
    var cs := bs + [Heap.Block(top, false, size)];
    i := Heap.EveryByteInBlock(cs, start, top + 20 + size, a);
  }

  /**
   With the heap at 0xC0100000 and 16 MiB of memory, a request of 3 MiB right after mm grows past the boot map, and the first
   frame given out is the one under the root block: the new block's bytes from 0xC0400000 on are the root block's header.
   */
  lemma RootOverwritten(m: Memory, pd: nat, low: nat, high: nat, s: State)
    requires pd < MAX_FRAMES && low < MAX_FRAMES && high < MAX_FRAMES && BootMap(m, pd, low, high)
    requires Inv(s, Interval(0, 0x200), {}) && s.count == 0x1000
    ensures Pages(0, 0xC010_0000 - 0xC000_0000 + 0x10_0000) == 0x200 && 0xC010_0015 + 0x30_0000 >= 0xC040_0000
    ensures NextFrame(s, 0x200) == 0x200 && PageOfFrame(0x200) * 0x1000 == 0xC010_0000
    ensures Translate(m, pd, PageOfFrame(0x200)) == Some(0x200)
  {
    hide BootMap, Inv, Interval, Translate, NextFrame;
    BootAliasExample(m, pd, low, high, s);
  }
}
