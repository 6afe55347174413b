/**
 The page map that kernel/x86/start.asm builds and mm takes over. Its second table maps the kernel's first 4 MiB
 to frames [0x100, 0x500), while mm reserves only the frames up to the end of the kernel and its modules.
 */
module Boot {
  import opened Machine
  import opened Frames
  import opened Paging
  import opened Access

  /** The first page behind the boot map's kernel pages, and the first frame behind theirs. */
  const BOOT_PAGES := 0xC_0400
  const BOOT_FRAMES := 0x500

  /** Table `low` maps the first 4 MiB to themselves, table `high` maps page 0xC0000 + i to frame 0x100 + i. */
  ghost predicate BootMap(m: Memory, pd: nat, low: nat, high: nat)
    requires pd < MAX_FRAMES && low < MAX_FRAMES && high < MAX_FRAMES
  {
    && 0 < pd && 0 < low && 0 < high && pd != low && pd != high && low != high
    && m[pd][0] == Bits(low, 3) && m[pd][768] == Bits(high, 3)
    && (forall t :: 0 <= t < 1024 && t != 0 && t != 768 ==> m[pd][t] == ZERO)
    && (forall i :: 0 <= i < 1024 ==> m[low][i] == Bits(i, 3))
    && (forall i :: 0 <= i < 1024 ==> m[high][i] == Bits(0x100 + i, 3))
  }

  lemma BootTranslates(m: Memory, pd: nat, low: nat, high: nat, q: nat)
    requires pd < MAX_FRAMES && low < MAX_FRAMES && high < MAX_FRAMES && q < PAGES && BootMap(m, pd, low, high)
    ensures Translate(m, pd, q) ==
            if q < 1024 then Some(q) else if FIRST_PAGE <= q < BOOT_PAGES then Some(0x100 + (q - FIRST_PAGE)) else None
  {
    var t := q / 1024;
    if t == 0 {
      assert m[low][q % 1024] == Bits(q, 3);
    } else if t == 768 {
      assert m[high][q % 1024] == Bits(0x100 + (q - FIRST_PAGE), 3);
    } else {
      assert m[pd][t] == ZERO;
    }
  }

  /** The loop of mm that maps the kernel's pages again changes nothing within the boot map. */
  lemma RemapChangesNothing(m: Memory, pd: nat, low: nat, high: nat, i: nat)
    requires pd < MAX_FRAMES && low < MAX_FRAMES && high < MAX_FRAMES && BootMap(m, pd, low, high) && i < 1024
    ensures Write(m, pd, FIRST_PAGE + i, Or3(m[pd][768]), Pte(0x10_0000 + 0x1000 * i)) == m
  {
    var n := Write(m, pd, FIRST_PAGE + i, Or3(m[pd][768]), Pte(0x10_0000 + 0x1000 * i));
    assert (FIRST_PAGE + i) / 1024 == 768 && (FIRST_PAGE + i) % 1024 == i;
    assert Or3(m[pd][768]) == m[pd][768] && Pte(0x10_0000 + 0x1000 * i) == m[high][i];
    assert m[pd][768 := m[pd][768]] == m[pd] && m[high][i := m[high][i]] == m[high];
    assert m[pd := m[pd]] == m && m[high := m[high]] == m;
  }

  /** The turn of that loop for the first page behind the boot map changes memory, whatever frame becomes the table. */
  lemma RemapPastBoot(m: Memory, pd: nat, low: nat, high: nat)
    requires pd < MAX_FRAMES && low < MAX_FRAMES && high < MAX_FRAMES && BootMap(m, pd, low, high)
    ensures Translate(m, pd, BOOT_PAGES).None? && Table(m, pd, 768) == high != 0
  {
    assert m[pd][769] == ZERO && BOOT_PAGES / 1024 == 769;
  }

  /**
   The loop of mm that maps the kernel's pages again, from 0xC0000000 up to the page of `heap`. It leaves memory and the
   allocator as they were exactly when the heap starts within the boot map. `done` fails only when frame_get does not
   return or no frame is left.
   */
  method MapKernel(space: AddressSpace, heap: u32, ghost low: nat, ghost high: nat) returns (done: bool)
    requires space.Base() && low < MAX_FRAMES && high < MAX_FRAMES && BootMap(space.phys, space.pd, low, high)
    requires 0xC000_0000 <= heap
    modifies space`phys, space.frames`frameIdx, space.frames`framesFree, space.frames`held, space.frames.bitmap
    ensures heap < 0xC040_0000 ==>
              && done && space.phys == old(space.phys) && space.frames.held == old(space.frames.held)
              && AddressSpace.Unused(old(space.frames.View()), old(space.frames.frameIdx), space.frames)
    ensures done ==> space.Base() && (space.phys == old(space.phys) <==> heap < 0xC040_0000)
    ensures !done ==> !HasFreeGroup(space.frames.View()) || space.frames.framesFree == 0
  {
    hide BootMap, Inv, Directory, Translate, HasFreeGroup;
    ghost var m := space.phys;
    RemapPastBoot(m, space.pd, low, high);
    var n := (heap - 0xC000_0000) / 0x1000 + 1;
    for i := 0 to n
      invariant space.Base()
      invariant i <= 1024 ==> space.phys == m && space.frames.held == old(space.frames.held)
                              && AddressSpace.Unused(old(space.frames.View()), old(space.frames.frameIdx), space.frames)
      invariant i > 1024 ==> Translate(space.phys, space.pd, BOOT_PAGES).Some?
    {
      var ok := RemapTurn(space, i, m, low, high);
      if !ok {
        return false;
      }
    }
    return true;
  }

  /** Turn `i` of that loop, which maps page 0xC0000 + i to frame 0x100 + i; false where no frame is to be had. */
  method RemapTurn(space: AddressSpace, i: nat, ghost m: Memory, ghost low: nat, ghost high: nat) returns (ok: bool)
    requires space.Base() && low < MAX_FRAMES && high < MAX_FRAMES && BootMap(m, space.pd, low, high) && i < 0x4_0000
    requires if i <= 1024 then space.phys == m else Translate(space.phys, space.pd, BOOT_PAGES).Some?
    modifies space`phys, space.frames`frameIdx, space.frames`framesFree, space.frames`held, space.frames.bitmap
    ensures i < 1024 ==> ok && space.phys == m && space.frames.held == old(space.frames.held)
                         && AddressSpace.Unused(old(space.frames.View()), old(space.frames.frameIdx), space.frames)
    ensures ok ==> space.Base() && (i >= 1024 ==> Translate(space.phys, space.pd, BOOT_PAGES).Some?)
    ensures !ok ==> !HasFreeGroup(space.frames.View()) || space.frames.framesFree == 0
  {
    hide BootMap, Inv, Directory, Entries, ClearFree, Translate, Write, Target, HasFreeGroup, MappedKept, NewTables, OthersKept;
    ghost var before, start, pg := space.phys, space.Snapshot(), FIRST_PAGE + i;
    PageOf(pg);
    RemapPastBoot(m, space.pd, low, high);
    var got, d := space.PageMap(0x10_0000 + 0x1000 * i, 0xC000_0000 + 0x1000 * i);
    if !got {
      return false;
    }
    if i < 1024 {
      KeptWord(m, space.pd, low, high, i, d);
      RemapChangesNothing(m, space.pd, low, high, i);
      return true;
    }
    TookTableFacts(start, pg, d, space.frames.held, space.frames.framesFree);
    if i > 1024 {
      StillThere(before, space.phys, space.pd, pg);
    }
    return space.frames.framesFree > 0;
  }

  /** Within the boot map page_map leaves the directory word as it is, and takes no frame. */
  lemma KeptWord(m: Memory, pd: nat, low: nat, high: nat, i: nat, d: Word)
    requires pd < MAX_FRAMES && low < MAX_FRAMES && high < MAX_FRAMES && BootMap(m, pd, low, high) && i < 1024
    requires Target(m, pd, (FIRST_PAGE + i) / 1024, d)
    ensures d == Or3(m[pd][768]) && d.frame != 0 && NewTables(m, pd, FIRST_PAGE + i, d) == {}
  {
    assert (FIRST_PAGE + i) / 1024 == 768;
  }

  lemma StillThere(m: Memory, n: Memory, pd: nat, pg: nat)
    requires pd < MAX_FRAMES && BOOT_PAGES < pg < PAGES && MappedKept(m, n, pd, pg, pg + 1) && Translate(m, pd, BOOT_PAGES).Some?
    ensures Translate(n, pd, BOOT_PAGES).Some?
  {
  }

  /** The boot map is sound once frame 0 is clear and its own frames are taken. */
  lemma BootSound(m: Memory, pd: nat, low: nat, high: nat, taken: set<nat>)
    requires pd < MAX_FRAMES && low < MAX_FRAMES && high < MAX_FRAMES && BootMap(m, pd, low, high)
    requires {0, pd, low, high} <= taken && forall p :: 0 <= p < 1024 ==> m[0][p] == ZERO
    ensures Sound(m, pd, taken)
  {
    assert forall t :: 0 <= t < 1024 && Table(m, pd, t) != 0 ==> t == 0 || t == 768;
    assert Directory(m, pd, taken);
    forall t, p | 0 <= t < 1024 && 0 <= p < 1024 && Table(m, pd, t) != 0
      ensures var x := m[Table(m, pd, t)][p]; x == ZERO || Present(x)
    {
      if t == 0 {
        assert m[low][p] == Bits(p, 3);
      } else {
        assert m[high][p] == Bits(0x100 + p, 3);
      }
    }
  }

  /** A boot map with its directory and tables in frames 0x110 to 0x112, and all other frames clear. */
  function BootWord(f: nat, i: nat): Word
    requires i < 1024
  {
    if f == 0x110 then (if i == 0 then Bits(0x111, 3) else if i == 768 then Bits(0x112, 3) else ZERO)
    else if f == 0x111 then Bits(i, 3)
    else if f == 0x112 then Bits(0x100 + i, 3)
    else ZERO
  }

  function BootFrame(f: nat): (w: seq<Word>)
    ensures |w| == 1024 && forall i :: 0 <= i < 1024 ==> w[i] == BootWord(f, i)
  {
    seq(1024, i requires 0 <= i < 1024 => BootWord(f, i))
  }

  function BootMemory(): (m: Memory)
    ensures forall f :: 0 <= f < MAX_FRAMES ==> m[f] == BootFrame(f)
  {
    seq(MAX_FRAMES, f requires 0 <= f < MAX_FRAMES => BootFrame(f))
  }

  /** Such a memory exists, and it is clean. */
  lemma BootMapExists()
    ensures BootMap(BootMemory(), 0x110, 0x111, 0x112)
    ensures Sound(BootMemory(), 0x110, {0, 0x110, 0x111, 0x112}) && ClearFree(BootMemory(), {0, 0x110, 0x111, 0x112})
  {
    hide BootMemory, BootFrame, Sound;
    assert BootMap(BootMemory(), 0x110, 0x111, 0x112);
    BootSound(BootMemory(), 0x110, 0x111, 0x112, {0, 0x110, 0x111, 0x112});
  }

  /** The frames that the boot map's kernel pages name are [0x100, 0x500). */
  lemma BootFrames(m: Memory, pd: nat, low: nat, high: nat, lo: nat, f: nat)
    requires pd < MAX_FRAMES && low < MAX_FRAMES && high < MAX_FRAMES && BootMap(m, pd, low, high) && BOOT_PAGES <= lo <= PAGES
    ensures f in FramesOf(m, pd, FIRST_PAGE, lo) <==> 0x100 <= f < BOOT_FRAMES
  {
    hide BootMap, Translate;
    if 0x100 <= f < BOOT_FRAMES {
      BootTranslates(m, pd, low, high, FIRST_PAGE + (f - 0x100));
    }
    if f in FramesOf(m, pd, FIRST_PAGE, lo) {
      var pg :| FIRST_PAGE <= pg < lo && Translate(m, pd, pg) == Some(f);
      BootTranslates(m, pd, low, high, pg);
    }
  }

  /** A frame that growing took, for a page or a table, lies under a kernel page that was mapped before. */
  ghost predicate Aliased(s: Start, m: Memory, lo: nat, hi: nat, tables: set<nat>)
    requires s.pd < MAX_FRAMES && FIRST_PAGE <= lo <= hi <= PAGES
  {
    exists f :: f in FramesOf(m, s.pd, lo, hi) + tables && f in FramesOf(s.phys, s.pd, FIRST_PAGE, lo)
  }

  /** What the allocator was and is when the map grew from boot with frames [0, r) reserved. */
  ghost predicate FromSetup(s: Start, r: nat, before: State, after: State, held: set<nat>) {
    && 0x100 <= r && s.taken == Interval(0, r) && s.held == {}
    && Inv(before, Interval(0, r), {}) && Inv(after, Interval(0, r), held) && before.count == after.count
  }

  /**
   Growing past the boot map gives out a frame, for a page or for a table, that the kernel's first 4 MiB are
   mapped to, exactly when the group after the reserved frames starts below frame 0x500.
   */
  lemma BootGrowthAliasesIff(s: Start, low: nat, high: nat, r: nat, before: State, after: State,
                             m: Memory, lo: nat, hi: nat, held: set<nat>, free: int, tables: set<nat>)
    requires s.pd < MAX_FRAMES && low < MAX_FRAMES && high < MAX_FRAMES && BootMap(s.phys, s.pd, low, high)
    requires FromSetup(s, r, before, after, held) && BOOT_PAGES <= lo < hi <= PAGES
    requires Grown(s, m, lo, hi, held, free, tables) && Translate(m, s.pd, lo) == Some(NextFrame(before, r))
    ensures Aliased(s, m, lo, hi, tables) <==> 8 * ((r + 7) / 8) < BOOT_FRAMES
  {
    hide BootMap, Inv, Translate, NextFrame, OwnFrames, MappedKept, TablesFrom;
    var first := Translate(m, s.pd, lo).value;
    assert first in FramesOf(m, s.pd, lo, hi);
    hide FramesOf;
    HeldAbove(after, r, held, first);
    HeldBelow(after, r, held, first);
    FirstGet(before, r);
    if 8 * ((r + 7) / 8) < BOOT_FRAMES {
      BootFrames(s.phys, s.pd, low, high, lo, first);
    } else if Aliased(s, m, lo, hi, tables) {
      var f :| f in FramesOf(m, s.pd, lo, hi) + tables && f in FramesOf(s.phys, s.pd, FIRST_PAGE, lo);
      BootFrames(s.phys, s.pd, low, high, lo, f);
      HeldAbove(after, r, held, f);
    }
  }

  lemma HeldBelow(s: State, r: nat, H: set<nat>, f: nat)
    requires Inv(s, Interval(0, r), H) && f in H
    ensures f < s.count
  {
  }

  /**
   page_map reaches a table through the address of its frame, which only the 4 MiB at the bottom are mapped for. So
   when growing from boot does not alias, no new table can be reached at all: no reserved size makes it safe.
   */
  lemma UnaliasedTablesUnreachable(s: Start, low: nat, high: nat, r: nat, before: State, after: State,
                                   m: Memory, lo: nat, hi: nat, held: set<nat>, free: int, tables: set<nat>, f: nat)
    requires s.pd < MAX_FRAMES && low < MAX_FRAMES && high < MAX_FRAMES && BootMap(s.phys, s.pd, low, high)
    requires FromSetup(s, r, before, after, held) && BOOT_PAGES <= lo < hi <= PAGES
    requires Grown(s, m, lo, hi, held, free, tables) && Translate(m, s.pd, lo) == Some(NextFrame(before, r))
    requires !Aliased(s, m, lo, hi, tables) && f in tables
    ensures f < PAGES && Translate(s.phys, s.pd, f) != Some(f)
  {
    hide BootMap, Inv, Translate, NextFrame, OwnFrames, MappedKept, TablesFrom, Aliased, FramesOf;
    BootGrowthAliasesIff(s, low, high, r, before, after, m, lo, hi, held, free, tables);
    HeldAbove(after, r, held, f);
    HeldBelow(after, r, held, f);
    CountBelow(after, r, held);
    BootTranslates(s.phys, s.pd, low, high, f);
  }

  lemma CountBelow(s: State, r: nat, H: set<nat>)
    requires Inv(s, Interval(0, r), H)
    ensures s.count < MAX_FRAMES
  {
  }

  /** With 2 MiB reserved of 16, the first frame given out is the one under page 0xC0100. */
  lemma BootAliasExample(m: Memory, pd: nat, low: nat, high: nat, s: State)
    requires pd < MAX_FRAMES && low < MAX_FRAMES && high < MAX_FRAMES && BootMap(m, pd, low, high)
    requires Inv(s, Interval(0, 0x200), {}) && s.count == 0x1000
    ensures NextFrame(s, 0x200) == 0x200 && Translate(m, pd, 0xC_0100) == Some(0x200)
  {
    hide BootMap, Inv, Translate, NextFrame, Interval;
    FirstGet(s, 0x200);
    BootTranslates(m, pd, low, high, 0xC_0100);
  }

  /**
   The pages from `first` on, where the heap starts, are data pages of the boot map exactly when they lie behind its
   kernel pages or the frames of all those pages are reserved. The directory and the tables lie in the kernel's image.
   */
  lemma BootDataIff(m: Memory, pd: nat, low: nat, high: nat, r: nat, first: nat, last: nat)
    requires pd < MAX_FRAMES && low < MAX_FRAMES && high < MAX_FRAMES && BootMap(m, pd, low, high)
    requires FIRST_PAGE <= first && BOOT_PAGES <= last <= PAGES
    requires pd < 0x100 + (first - FIRST_PAGE) && low < 0x100 + (first - FIRST_PAGE) && high < 0x100 + (first - FIRST_PAGE)
    ensures DataPages(m, pd, Interval(0, r), first, last) <==> first >= BOOT_PAGES || r >= BOOT_FRAMES
  {
    hide BootMap, Translate, DataFrame, Interval;
    forall pg | first <= pg < last
      ensures if pg < BOOT_PAGES
              then Translate(m, pd, pg) == Some(0x100 + (pg - FIRST_PAGE))
                   && (DataFrame(m, pd, Interval(0, r), 0x100 + (pg - FIRST_PAGE)) <==> 0x100 + (pg - FIRST_PAGE) < r)
              else Translate(m, pd, pg).None?
    {
      BootTranslates(m, pd, low, high, pg);
      if pg < BOOT_PAGES {
        BootDataFrame(m, pd, low, high, r, 0x100 + (pg - FIRST_PAGE));
      }
    }
    assert first < BOOT_PAGES ==> Translate(m, pd, BOOT_PAGES - 1) == Some(BOOT_FRAMES - 1);
  }

  lemma BootPrefix(m: Memory, pd: nat, low: nat, high: nat, last: nat)
    requires pd < MAX_FRAMES && low < MAX_FRAMES && high < MAX_FRAMES && BootMap(m, pd, low, high) && last < PAGES
    ensures NoneAbove(m, pd, last)
  {
    hide BootMap, Translate;
    forall pg, q | FIRST_PAGE <= pg <= q <= last && Translate(m, pd, pg).None? ensures Translate(m, pd, q).None? {
      BootTranslates(m, pd, low, high, pg);
      BootTranslates(m, pd, low, high, q);
    }
  }

  /** What malloc asks of the map holds at boot, with the free frames clear, under that same condition. */
  lemma BootTidyIff(m: Memory, pd: nat, low: nat, high: nat, r: nat, first: nat, last: nat)
    requires pd < MAX_FRAMES && low < MAX_FRAMES && high < MAX_FRAMES && BootMap(m, pd, low, high)
    requires FIRST_PAGE <= first && BOOT_PAGES <= last < PAGES
    requires pd < 0x100 + (first - FIRST_PAGE) && low < 0x100 + (first - FIRST_PAGE) && high < 0x100 + (first - FIRST_PAGE)
    requires pd < r && low < r && high < r && ClearFree(m, Interval(0, r)) && forall p :: 0 <= p < 1024 ==> m[0][p] == ZERO
    ensures Tidy(m, pd, Interval(0, r), first, last) <==> first >= BOOT_PAGES || r >= BOOT_FRAMES
  {
    hide BootMap, Sound, ClearFree, DataPages, NoneAbove, Interval;
    BootSound(m, pd, low, high, Interval(0, r));
    BootPrefix(m, pd, low, high, last);
    BootDataIff(m, pd, low, high, r, first, last);
  }

  lemma BootDataFrame(m: Memory, pd: nat, low: nat, high: nat, r: nat, f: nat)
    requires pd < MAX_FRAMES && low < MAX_FRAMES && high < MAX_FRAMES && BootMap(m, pd, low, high)
    requires pd < f && low < f && high < f
    ensures DataFrame(m, pd, Interval(0, r), f) <==> f < r
  {
    hide BootMap, Interval, Table;
    BootTables(m, pd, low, high);
  }

  lemma BootTables(m: Memory, pd: nat, low: nat, high: nat)
    requires pd < MAX_FRAMES && low < MAX_FRAMES && high < MAX_FRAMES && BootMap(m, pd, low, high)
    ensures forall t :: 0 <= t < 1024 ==> Table(m, pd, t) == 0 || Table(m, pd, t) == low || Table(m, pd, t) == high
  {
    assert forall t :: 0 <= t < 1024 && t != 0 && t != 768 ==> m[pd][t] == ZERO;
  }

  /**
   page_map_until from boot, past the boot map. With `r` the frames that mm reserved, what it gives out is mapped
   in the kernel area already, or its tables cannot be reached.
   */
  method GrowFromBoot(space: AddressSpace, newLimit: u32, ghost r: nat, ghost low: nat, ghost high: nat)
    returns (limit: Option<u32>, ghost start: nat, ghost end: nat, ghost tables: set<nat>)
    requires space.Base() && low < MAX_FRAMES && high < MAX_FRAMES && BootMap(space.phys, space.pd, low, high)
    requires 0x100 <= r == space.frames.frameIdx && space.frames.reserved == Interval(0, r) && space.frames.held == {}
    requires newLimit < 0xFFFF_F000
    modifies space`phys, space.frames`frameIdx, space.frames`framesFree, space.frames`held, space.frames.bitmap
    ensures BOOT_PAGES <= start <= end < PAGES
    ensures limit.Some? && start < end ==>
              (Aliased(old(space.Snapshot()), space.phys, start, end, tables) <==> 8 * ((r + 7) / 8) < BOOT_FRAMES)
    ensures limit.Some? && start < end && 8 * ((r + 7) / 8) >= BOOT_FRAMES ==>
              forall f :: f in tables ==> f < PAGES && Translate(old(space.phys), space.pd, f) != Some(f)
  {
    hide BootMap, Inv, Translate, NextFrame, Grown, Directory, Entries, RawTop, Aliased, KeptOutside, ClearFree;
    ghost var s, before := space.Snapshot(), space.frames.View();
    limit, start, end, tables := space.PageMapUntil(newLimit);
    BootTop(s.phys, s.pd, low, high, start);
    if limit.Some? && start < end {
      assert s.taken == Interval(0, r);
      BootGrowthAliasesIff(s, low, high, r, before, space.frames.View(), space.phys, start, end,
                           space.frames.held, space.frames.framesFree, tables);
      if 8 * ((r + 7) / 8) >= BOOT_FRAMES {
        forall f | f in tables ensures f < PAGES && Translate(s.phys, s.pd, f) != Some(f) {
          UnaliasedTablesUnreachable(s, low, high, r, before, space.frames.View(), space.phys, start, end,
                                     space.frames.held, space.frames.framesFree, tables, f);
        }
      }
    }
  }

  lemma BootRaw(m: Memory, pd: nat, low: nat, high: nat, n: nat)
    requires pd < MAX_FRAMES && low < MAX_FRAMES && high < MAX_FRAMES && BootMap(m, pd, low, high) && FIRST_PAGE <= n < BOOT_PAGES
    ensures RawWord(m, pd, n) != ZERO
  {
    assert m[high][n % 1024] == Bits(0x100 + n % 1024, 3);
  }

  /** page_upper passes all of the boot map. */
  lemma BootTop(m: Memory, pd: nat, low: nat, high: nat, n: nat)
    requires pd < MAX_FRAMES && low < MAX_FRAMES && high < MAX_FRAMES && BootMap(m, pd, low, high) && RawTop(m, pd, n)
    ensures n >= BOOT_PAGES
  {
    hide BootMap, RawWord;
    if n < BOOT_PAGES {
      BootRaw(m, pd, low, high, n);
    }
  }
}
