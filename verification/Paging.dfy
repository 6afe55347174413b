/**
 The two-level page map of kernel/x86/page.c over physical memory, following
 32-bit paging as in section 4.3 of the Intel SDM, volume 3A.

 Physical memory is one sequence of frames of 1024 words, so a directory, its
 page tables and the frames they map all live in the same storage and can alias;
 that they do not is an invariant, kept because the frame allocator hands out
 only frames nobody has.
 */
module Paging {
  import opened Machine
  import opened Frames

  /** KERNEL_BASE and KERNEL_LIMIT as page numbers, and the number of pages. */
  const FIRST_PAGE := 0xC_0000
  const LAST_PAGE := 0xD_FFF0
  const PAGES := 0x10_0000

  /** A word of a directory or table, by its upper twenty and lower twelve bits. */
  datatype Bits = Bits(frame: nat, flags: nat)

  type Word = w: Bits | w.frame < MAX_FRAMES && w.flags < 0x1000 witness Bits(0, 0)

  const ZERO: Word := Bits(0, 0)

  /** Bit 0, PAGE_FLAG_PRESENT. */
  predicate Present(w: Word) { w.flags % 2 == 1 }

  /** Bit 1, PAGE_FLAG_RW. */
  predicate Rw(w: Word) { w.flags / 2 % 2 == 1 }

  /** `w | PAGE_FLAG_PRESENT | PAGE_FLAG_RW`: both bits are set, and all others are as they were. */
  function Or3(w: Word): (y: Word)
    ensures y.frame == w.frame && Present(y) && Rw(y) && y.flags / 4 == w.flags / 4
  {
    Bits(w.frame, 4 * (w.flags / 4) + 3)
  }

  /** The table entry for physical address `p`. */
  function Pte(p: u32): (y: Word)
    ensures y.frame == p / 0x1000 && Present(y) && Rw(y) && y.flags / 4 == 0
  {
    Bits(p / 0x1000, 3)
  }

  function Page(v: u32): (pg: nat)
    ensures pg < PAGES
  {
    v / 0x1000
  }

  lemma PageOf(n: nat)
    requires n < PAGES
    ensures Page(n * 0x1000) == n
  {
  }

  /** The directory index and the table index of an address together name its page. */
  lemma IndicesNamePage(v: u32)
    ensures v / 0x40_0000 == Page(v) / 1024 < 1024
    ensures v / 0x1000 % 0x400 == Page(v) % 1024
    ensures Page(v) == v / 0x40_0000 * 1024 + v / 0x1000 % 0x400
  {
  }

  /** Physical memory: frame number, then word. */
  type Memory = m: seq<seq<Word>> | |m| == MAX_FRAMES && forall f :: 0 <= f < |m| ==> |m[f]| == 1024
    witness seq(MAX_FRAMES, i => seq(1024, j => ZERO))

  function Put(m: Memory, f: nat, i: nat, x: Word): (n: Memory)
    requires f < MAX_FRAMES && i < 1024
    ensures n[f][i] == x
    ensures forall g, j :: 0 <= g < MAX_FRAMES && 0 <= j < 1024 && (g != f || j != i) ==> n[g][j] == m[g][j]
  {
    var frame: seq<Word> := m[f][i := x];
    m[f := frame]
  }

  /** The frame of page table `t` of directory `pd`; 0 when the slot is empty. */
  function Table(m: Memory, pd: nat, t: nat): (f: nat)
    requires pd < MAX_FRAMES && t < 1024
    ensures f < MAX_FRAMES
  {
    m[pd][t].frame
  }

  /** What the processor makes of page `pg`: the frame it maps to, if any. */
  function Translate(m: Memory, pd: nat, pg: nat): Option<nat>
    requires pd < MAX_FRAMES && pg < PAGES
  {
    var entry := m[Table(m, pd, pg / 1024)][pg % 1024];
    if !Present(m[pd][pg / 1024]) || !Present(entry) then None else Some(entry.frame)
  }

  /** Directory slots hold nothing or a present table, each table in a taken frame of its own. */
  ghost predicate Directory(m: Memory, pd: nat, taken: set<nat>)
    requires pd < MAX_FRAMES
  {
    && 0 in taken && pd in taken && pd != 0
    && (forall t :: 0 <= t < 1024 && Table(m, pd, t) == 0 ==> m[pd][t] == ZERO)
    && (forall t :: 0 <= t < 1024 && Table(m, pd, t) != 0 ==>
          Present(m[pd][t]) && Table(m, pd, t) in taken && Table(m, pd, t) != pd)
    && (forall t, u :: 0 <= t < u < 1024 && Table(m, pd, t) != 0 ==> Table(m, pd, t) != Table(m, pd, u))
  }

  /** Table entries are empty or present; physical frame 0, which is read for an empty slot, is clear. */
  ghost predicate Entries(m: Memory, pd: nat)
    requires pd < MAX_FRAMES
  {
    && (forall p :: 0 <= p < 1024 ==> m[0][p] == ZERO)
    && (forall t, p :: 0 <= t < 1024 && 0 <= p < 1024 && Table(m, pd, t) != 0 ==>
          var x := m[Table(m, pd, t)][p]; x == ZERO || Present(x))
  }

  ghost predicate Sound(m: Memory, pd: nat, taken: set<nat>)
    requires pd < MAX_FRAMES
  {
    Directory(m, pd, taken) && Entries(m, pd)
  }

  /** Frames not handed out are clear. The kernel never clears a frame, so this is the memory's doing. */
  ghost predicate ClearFree(m: Memory, taken: set<nat>) {
    forall f: nat, p :: f < MAX_FRAMES && 0 <= p < 1024 && f !in taken ==> m[f][p] == ZERO
  }

  /** The map and the allocator at the start of an operation. */
  datatype Start = Start(phys: Memory, pd: nat, taken: set<nat>, held: set<nat>, free: nat)

  // ------------------------------------------------------------- page_map

  /** The two words page_map writes: `d` in the directory, then `e` in the table that `d` names. */
  function Write(m: Memory, pd: nat, pg: nat, d: Word, e: Word): Memory
    requires pd < MAX_FRAMES && pg < PAGES
  {
    Put(Put(m, pd, pg / 1024, d), d.frame, pg % 1024, e)
  }

  /** `d` is the slot's word with its flags, or the slot is empty and `d` names a frame that is nobody's table. */
  ghost predicate Target(m: Memory, pd: nat, t: nat, d: Word)
    requires pd < MAX_FRAMES && t < 1024
  {
    && Present(d) && Rw(d) && d.flags / 4 == m[pd][t].flags / 4 && d.frame != pd
    && (Table(m, pd, t) != 0 ==> d == Or3(m[pd][t]))
    && (Table(m, pd, t) == 0 ==> forall u :: 0 <= u < 1024 && Table(m, pd, u) != 0 ==> Table(m, pd, u) != d.frame)
  }

  /** The frame page_map takes for a new table when it leaves directory word `d`, if any. */
  function NewTables(m: Memory, pd: nat, pg: nat, d: Word): set<nat>
    requires pd < MAX_FRAMES && pg < PAGES
  {
    if Table(m, pd, pg / 1024) == 0 && d.frame != 0 then {d.frame} else {}
  }

  /** How page_map used the allocator: a fresh frame for a missing table, or none because none was left. */
  ghost predicate TookTable(s: Start, pg: nat, d: Word, held: set<nat>, free: int)
    requires s.pd < MAX_FRAMES && pg < PAGES
  {
    var tables := NewTables(s.phys, s.pd, pg, d);
    && Target(s.phys, s.pd, pg / 1024, d)
    && tables !! s.taken && held == s.held + tables && free == s.free - |tables|
    && (d.frame == 0 ==> s.free == 0)
  }

  /** A get that finds the counter at zero changes nothing. */
  lemma NothingGot(s: State, idx: nat)
    ensures s.WellSized() && s.free == 0 ==> GetRec(s, idx, 2) == Some(Outcome(0, s, idx))
  {
  }

  lemma TookTableFacts(s: Start, pg: nat, d: Word, held: set<nat>, free: int)
    requires s.pd < MAX_FRAMES && pg < PAGES && TookTable(s, pg, d, held, free)
    ensures s.held <= held && (d.frame == 0 ==> free == 0)
  {
  }

  lemma OldTarget(m: Memory, pd: nat, taken: set<nat>, t: nat)
    requires pd < MAX_FRAMES && t < 1024 && Directory(m, pd, taken) && Table(m, pd, t) != 0
    ensures Target(m, pd, t, Or3(m[pd][t]))
  {
  }

  lemma NewTarget(m: Memory, pd: nat, taken: set<nat>, t: nat, f: nat)
    requires pd < MAX_FRAMES && t < 1024 && Directory(m, pd, taken) && Table(m, pd, t) == 0
    requires f < MAX_FRAMES && (f == 0 || f !in taken)
    ensures Target(m, pd, t, Or3(Bits(f, 0)))
  {
  }

  /** No other slot names the table that `d` names. */
  lemma TargetApart(m: Memory, pd: nat, taken: set<nat>, t: nat, d: Word)
    requires pd < MAX_FRAMES && t < 1024 && Directory(m, pd, taken) && Target(m, pd, t, d)
    ensures Table(m, pd, t) != 0 ==> d.frame == Table(m, pd, t)
    ensures forall u :: 0 <= u < 1024 && u != t && Table(m, pd, u) != 0 ==> Table(m, pd, u) != d.frame
  {
  }

  lemma TargetFlags(m: Memory, pd: nat, t: nat, d: Word)
    requires pd < MAX_FRAMES && t < 1024 && Target(m, pd, t, d)
    ensures d.flags == m[pd][t].flags / 4 * 4 + 3
  {
  }

  lemma TargetNotDirectory(m: Memory, pd: nat, t: nat, d: Word)
    requires pd < MAX_FRAMES && t < 1024 && Target(m, pd, t, d)
    ensures d.frame != pd && Present(d)
  {
  }

  lemma WriteMaps(m: Memory, pd: nat, pg: nat, d: Word, e: Word)
    requires pd < MAX_FRAMES && pg < PAGES && Present(d) && Present(e) && d.frame != pd
    ensures Translate(Write(m, pd, pg, d, e), pd, pg) == Some(e.frame)
  {
  }

  /** Page `pg` is mapped, and may be written: bit 1 is set at both levels. */
  predicate Writable(m: Memory, pd: nat, pg: nat)
    requires pd < MAX_FRAMES && pg < PAGES
  {
    Translate(m, pd, pg).Some? && Rw(m[pd][pg / 1024]) && Rw(m[Table(m, pd, pg / 1024)][pg % 1024])
  }

  /** Every other page that could be written still can. */
  ghost predicate WritableKept(m: Memory, n: Memory, pd: nat, pg: nat)
    requires pd < MAX_FRAMES
  {
    forall q: nat :: q < PAGES && q != pg && Writable(m, pd, q) ==> Writable(n, pd, q)
  }

  /** page_map makes its page writable and takes that from no other page; its two words are the ones named here. */
  lemma WriteWritable(m: Memory, pd: nat, taken: set<nat>, pg: nat, d: Word, e: Word)
    requires pd < MAX_FRAMES && pg < PAGES && Directory(m, pd, taken) && Target(m, pd, pg / 1024, d) && Present(e) && Rw(e)
    ensures var n := Write(m, pd, pg, d, e);
            && n[pd][pg / 1024] == d && n[d.frame][pg % 1024] == e && Writable(n, pd, pg) && WritableKept(m, n, pd, pg)
  {
    var n := Write(m, pd, pg, d, e);
    TargetApart(m, pd, taken, pg / 1024, d);
    forall q: nat | q < PAGES && q != pg && Writable(m, pd, q) ensures Writable(n, pd, q) {
      MappedHasTable(m, pd, taken, q);
      var t := Table(m, pd, q / 1024);
      if q / 1024 != pg / 1024 {
        assert n[pd][q / 1024] == m[pd][q / 1024] && n[t][q % 1024] == m[t][q % 1024];
      } else {
        assert t == d.frame && q % 1024 != pg % 1024;
        assert n[t][q % 1024] == m[t][q % 1024];
      }
    }
  }

  /** Pages under other directory slots keep their translation. */
  lemma WriteElsewhere(m: Memory, pd: nat, taken: set<nat>, pg: nat, d: Word, e: Word, q: nat)
    requires pd < MAX_FRAMES && pg < PAGES && q < PAGES && q / 1024 != pg / 1024
    requires Directory(m, pd, taken) && Target(m, pd, pg / 1024, d)
    ensures Translate(Write(m, pd, pg, d, e), pd, q) == Translate(m, pd, q)
  {
    var n := Write(m, pd, pg, d, e);
    assert n[pd][q / 1024] == m[pd][q / 1024];
  }

  /** Other pages under the same slot read what the table's frame held before. */
  lemma WriteBeside(m: Memory, pd: nat, taken: set<nat>, pg: nat, d: Word, e: Word, q: nat)
    requires pd < MAX_FRAMES && pg < PAGES && q < PAGES && q != pg && q / 1024 == pg / 1024
    requires Directory(m, pd, taken) && Target(m, pd, pg / 1024, d)
    ensures Translate(Write(m, pd, pg, d, e), pd, q) == Translate(m, pd, q) <==>
            Table(m, pd, pg / 1024) != 0 || !Present(m[d.frame][q % 1024])
  {
    var n := Write(m, pd, pg, d, e);
    assert n[d.frame][q % 1024] == m[d.frame][q % 1024];
  }

  /** Every page other than `pg` translates in `n` as in `m`. */
  ghost predicate OthersKept(m: Memory, n: Memory, pd: nat, pg: nat)
    requires pd < MAX_FRAMES
  {
    forall q: nat :: q < PAGES && q != pg ==> Translate(n, pd, q) == Translate(m, pd, q)
  }

  /** Every page outside [lo, hi) that was mapped in `m` is mapped to the same frame in `n`. */
  ghost predicate MappedKept(m: Memory, n: Memory, pd: nat, lo: nat, hi: nat)
    requires pd < MAX_FRAMES
  {
    forall q: nat :: q < PAGES && !(lo <= q < hi) && Translate(m, pd, q).Some? ==> Translate(n, pd, q) == Translate(m, pd, q)
  }

  /** page_map moves no other page that is mapped, whatever the frame taken for a new table holds. */
  lemma WriteMovesNone(m: Memory, pd: nat, taken: set<nat>, pg: nat, d: Word, e: Word)
    requires pd < MAX_FRAMES && pg < PAGES && Directory(m, pd, taken) && Target(m, pd, pg / 1024, d)
    ensures MappedKept(m, Write(m, pd, pg, d, e), pd, pg, pg + 1)
  {
    var n := Write(m, pd, pg, d, e);
    forall q: nat | q < PAGES && q != pg && Translate(m, pd, q).Some? ensures Translate(n, pd, q) == Translate(m, pd, q) {
      if q / 1024 != pg / 1024 {
        WriteElsewhere(m, pd, taken, pg, d, e, q);
      } else {
        MappedHasTable(m, pd, taken, q);
        WriteBeside(m, pd, taken, pg, d, e, q);
      }
    }
  }

  lemma MappedHasTable(m: Memory, pd: nat, taken: set<nat>, q: nat)
    requires pd < MAX_FRAMES && q < PAGES && Directory(m, pd, taken) && Translate(m, pd, q).Some?
    ensures Table(m, pd, q / 1024) != 0
  {
    assert !Present(ZERO);
  }

  /** No word of frame `f` other than word `p` has the present bit. */
  ghost predicate Quiet(m: Memory, f: nat, p: nat)
    requires f < MAX_FRAMES
  {
    forall w :: 0 <= w < 1024 && w != p ==> !Present(m[f][w])
  }

  /** page_map moves no other page exactly when the table was there, or the frame taken for it held no present entry. */
  lemma MapIsolatedIff(m: Memory, pd: nat, taken: set<nat>, pg: nat, d: Word, e: Word)
    requires pd < MAX_FRAMES && pg < PAGES
    requires Directory(m, pd, taken) && Target(m, pd, pg / 1024, d)
    ensures OthersKept(m, Write(m, pd, pg, d, e), pd, pg) <==>
            Table(m, pd, pg / 1024) != 0 || Quiet(m, d.frame, pg % 1024)
  {
    var n := Write(m, pd, pg, d, e);
    if Table(m, pd, pg / 1024) != 0 || Quiet(m, d.frame, pg % 1024) {
      forall q: nat | q < PAGES && q != pg ensures Translate(n, pd, q) == Translate(m, pd, q) {
        if q / 1024 != pg / 1024 {
          WriteElsewhere(m, pd, taken, pg, d, e, q);
        } else {
          assert q % 1024 != pg % 1024;
          WriteBeside(m, pd, taken, pg, d, e, q);
        }
      }
    } else {
      var w :| 0 <= w < 1024 && w != pg % 1024 && Present(m[d.frame][w]);
      WriteBeside(m, pd, taken, pg, d, e, pg - pg % 1024 + w);
    }
  }

  /** A frame with one stale word: mapping the first kernel page through it moves another page. */
  lemma DirtyTableExample(m: Memory)
    requires forall f, i :: 0 <= f < MAX_FRAMES && 0 <= i < 1024 ==> m[f][i] == ZERO
    ensures var dirty := Put(m, 2, 5, Bits(9, 1));
            Directory(dirty, 1, {0, 1}) && Target(dirty, 1, 0xC_0000 / 1024, Bits(2, 3))
            && !OthersKept(dirty, Write(dirty, 1, 0xC_0000, Bits(2, 3), Bits(7, 3)), 1, 0xC_0000)
  {
    var dirty := Put(m, 2, 5, Bits(9, 1));
    assert forall t :: 0 <= t < 1024 ==> dirty[1][t] == ZERO;
    MapIsolatedIff(dirty, 1, {0, 1}, 0xC_0000, Bits(2, 3), Bits(7, 3));
    assert Present(dirty[2][5]);
  }

  lemma WriteKeepsDirectory(m: Memory, pd: nat, taken: set<nat>, pg: nat, d: Word, e: Word)
    requires pd < MAX_FRAMES && pg < PAGES && d.frame != 0
    requires Directory(m, pd, taken) && Target(m, pd, pg / 1024, d)
    ensures Directory(Write(m, pd, pg, d, e), pd, taken + {d.frame})
  {
    var n := Write(m, pd, pg, d, e);
    assert forall u :: 0 <= u < 1024 && u != pg / 1024 ==> n[pd][u] == m[pd][u];
    assert forall u :: 0 <= u < 1024 && u != pg / 1024 ==> Table(n, pd, u) == Table(m, pd, u);
  }

  lemma WriteKeepsEntries(m: Memory, pd: nat, taken: set<nat>, pg: nat, d: Word, e: Word)
    requires pd < MAX_FRAMES && pg < PAGES && d.frame != 0 && (e == ZERO || Present(e))
    requires Sound(m, pd, taken) && Target(m, pd, pg / 1024, d)
    requires Table(m, pd, pg / 1024) == 0 ==> forall i :: 0 <= i < 1024 ==> m[d.frame][i] == ZERO
    ensures Entries(Write(m, pd, pg, d, e), pd)
  {
    var n := Write(m, pd, pg, d, e);
    TargetApart(m, pd, taken, pg / 1024, d);
    assert forall u :: 0 <= u < 1024 && u != pg / 1024 ==> n[pd][u] == m[pd][u];
    forall u, i | 0 <= u < 1024 && 0 <= i < 1024 && Table(n, pd, u) != 0
      ensures var x := n[Table(n, pd, u)][i]; x == ZERO || Present(x)
    {
      if u != pg / 1024 {
        assert Table(n, pd, u) == Table(m, pd, u) && Table(m, pd, u) != d.frame;
        assert n[Table(m, pd, u)][i] == m[Table(m, pd, u)][i];
      } else if i != pg % 1024 {
        assert Table(n, pd, u) == d.frame && n[d.frame][i] == m[d.frame][i];
      }
    }
  }

  /** With the free frames clear, page_map moves no other page, and the map stays sound if a table was had. */
  lemma WriteKeeps(m: Memory, pd: nat, taken: set<nat>, pg: nat, d: Word, e: Word)
    requires pd < MAX_FRAMES && pg < PAGES && Present(e) && Sound(m, pd, taken) && ClearFree(m, taken)
    requires Target(m, pd, pg / 1024, d) && NewTables(m, pd, pg, d) !! taken
    ensures OthersKept(m, Write(m, pd, pg, d, e), pd, pg)
    ensures d.frame != 0 ==> Sound(Write(m, pd, pg, d, e), pd, taken + NewTables(m, pd, pg, d))
                             && ClearFree(Write(m, pd, pg, d, e), taken + NewTables(m, pd, pg, d))
  {
    MapIsolatedIff(m, pd, taken, pg, d, e);
    if d.frame != 0 {
      WriteKeepsDirectory(m, pd, taken, pg, d, e);
      WriteKeepsEntries(m, pd, taken, pg, d, e);
      assert taken + {d.frame} == taken + NewTables(m, pd, pg, d);
    }
  }

  lemma WriteIs(m: Memory, pd: nat, pg: nat, d: Word, e: Word, n: Memory)
    requires pd < MAX_FRAMES && pg < PAGES && n == Put(Put(m, pd, pg / 1024, d), d.frame, pg % 1024, e)
    ensures n == Write(m, pd, pg, d, e)
  {
  }

  lemma WriteKeepsBase(m: Memory, pd: nat, taken: set<nat>, pg: nat, d: Word, e: Word)
    requires pd < MAX_FRAMES && pg < PAGES && d.frame != 0
    requires Directory(m, pd, taken) && Target(m, pd, pg / 1024, d)
    ensures Directory(Write(m, pd, pg, d, e), pd, taken + NewTables(m, pd, pg, d))
  {
    WriteKeepsDirectory(m, pd, taken, pg, d, e);
    assert taken + {d.frame} == taken + NewTables(m, pd, pg, d);
  }

  lemma GrowDirectory(m: Memory, pd: nat, taken: set<nat>, more: set<nat>)
    requires pd < MAX_FRAMES && Directory(m, pd, taken) && taken <= more
    ensures Directory(m, pd, more)
  {
  }

  lemma GrowTaken(m: Memory, pd: nat, taken: set<nat>, more: set<nat>)
    requires pd < MAX_FRAMES && Sound(m, pd, taken) && ClearFree(m, taken) && taken <= more
    ensures Sound(m, pd, more) && ClearFree(m, more)
  {
  }

  /** A frame that holds no table can be given back. */
  lemma ShrinkTaken(m: Memory, pd: nat, taken: set<nat>, f: nat)
    requires pd < MAX_FRAMES && Sound(m, pd, taken) && f != 0 && f != pd
    requires forall t :: 0 <= t < 1024 ==> Table(m, pd, t) != f
    ensures Sound(m, pd, taken - {f})
  {
  }

  /** Page `pg` is mapped by a present entry exactly when page_upper reads a non-zero word for it. */
  lemma NonZeroMeansMapped(m: Memory, pd: nat, taken: set<nat>, pg: nat)
    requires pd < MAX_FRAMES && pg < PAGES && Sound(m, pd, taken)
    ensures RawWord(m, pd, pg) != ZERO <==> Translate(m, pd, pg).Some?
  {
  }

  /** The word page_upper reads for page `pg`: an empty slot makes it read physical frame 0. */
  function RawWord(m: Memory, pd: nat, pg: nat): Word
    requires pd < MAX_FRAMES && pg < PAGES
  {
    m[Table(m, pd, pg / 1024)][pg % 1024]
  }

  /** `n` is the first page of the kernel area for which page_upper reads zero, or the end of the area. */
  ghost predicate RawTop(m: Memory, pd: nat, n: nat)
    requires pd < MAX_FRAMES
  {
    && FIRST_PAGE <= n <= LAST_PAGE
    && (forall pg :: FIRST_PAGE <= pg < n ==> RawWord(m, pd, pg) != ZERO)
    && (n < LAST_PAGE ==> RawWord(m, pd, n) == ZERO)
  }

  lemma TopInArea(m: Memory, pd: nat, n: nat)
    requires pd < MAX_FRAMES && RawTop(m, pd, n)
    ensures FIRST_PAGE <= n <= LAST_PAGE
  {
  }

  /** In a sound map what page_upper finds is the first page that is not mapped. */
  lemma RawTopIsTop(m: Memory, pd: nat, taken: set<nat>, n: nat)
    requires pd < MAX_FRAMES && Sound(m, pd, taken)
    ensures RawTop(m, pd, n) <==> IsTop(m, pd, n)
  {
    hide Sound, Translate, RawWord;
    forall pg | FIRST_PAGE <= pg < PAGES ensures RawWord(m, pd, pg) != ZERO <==> Translate(m, pd, pg).Some? {
      NonZeroMeansMapped(m, pd, taken, pg);
    }
  }

  /** Every page of [KERNEL_BASE, n) is mapped. */
  ghost predicate MappedTo(m: Memory, pd: nat, n: nat)
    requires pd < MAX_FRAMES && n <= PAGES
  {
    forall pg :: FIRST_PAGE <= pg < n ==> Translate(m, pd, pg).Some?
  }

  /** `n` is the first page of the kernel area that is not mapped. */
  ghost predicate IsTop(m: Memory, pd: nat, n: nat)
    requires pd < MAX_FRAMES
  {
    FIRST_PAGE <= n <= LAST_PAGE && MappedTo(m, pd, n) && (n < LAST_PAGE ==> Translate(m, pd, n).None?)
  }

  /** The pages [lo, hi) are mapped to frames in `S`, each to a frame of its own that is no page table. */
  ghost predicate OwnFrames(m: Memory, pd: nat, lo: nat, hi: nat, S: set<nat>)
    requires pd < MAX_FRAMES && hi <= PAGES
  {
    && (forall pg :: lo <= pg < hi ==> Translate(m, pd, pg).Some? && Translate(m, pd, pg).value in S)
    && (forall pg, t :: lo <= pg < hi && 0 <= t < 1024 ==> Translate(m, pd, pg) != Some(Table(m, pd, t)))
    && (forall pg, q :: lo <= pg < q < hi ==> Translate(m, pd, pg) != Translate(m, pd, q))
  }

  ghost function FramesOf(m: Memory, pd: nat, lo: nat, hi: nat): (S: set<nat>)
    requires pd < MAX_FRAMES && lo <= hi <= PAGES
  {
    set pg | lo <= pg < hi && Translate(m, pd, pg).Some? :: Translate(m, pd, pg).value
  }

  /** Pages outside [lo, hi) translate in `n` as in `m`. */
  ghost predicate KeptOutside(m: Memory, n: Memory, pd: nat, lo: nat, hi: nat)
    requires pd < MAX_FRAMES
  {
    forall q: nat :: q < PAGES && !(lo <= q < hi) ==> Translate(n, pd, q) == Translate(m, pd, q)
  }

  lemma NewFrameIsNoTable(m: Memory, pd: nat, taken: set<nat>, f: nat)
    requires pd < MAX_FRAMES && Directory(m, pd, taken) && f !in taken
    ensures forall t :: 0 <= t < 1024 ==> Table(m, pd, t) != f
  {
  }

  /** Every slot of `n` names the table it names in `m`, or one of `tables`. */
  ghost predicate TablesFrom(m: Memory, n: Memory, pd: nat, tables: set<nat>)
    requires pd < MAX_FRAMES
  {
    forall t :: 0 <= t < 1024 ==> Table(n, pd, t) == Table(m, pd, t) || Table(n, pd, t) in tables
  }

  lemma WriteTables(m: Memory, pd: nat, pg: nat, d: Word, e: Word)
    requires pd < MAX_FRAMES && pg < PAGES && Target(m, pd, pg / 1024, d)
    ensures TablesFrom(m, Write(m, pd, pg, d, e), pd, NewTables(m, pd, pg, d))
  {
    var n := Write(m, pd, pg, d, e);
    assert forall t :: 0 <= t < 1024 && t != pg / 1024 ==> n[pd][t] == m[pd][t];
  }

  /** One more page mapped to a frame `f` nobody had, perhaps with a new table, keeps the frames distinct. */
  lemma OneMorePage(m: Memory, n: Memory, pd: nat, lo: nat, hi: nat, S: set<nat>, f: nat, added: set<nat>)
    requires pd < MAX_FRAMES && lo <= hi < PAGES
    requires OwnFrames(m, pd, lo, hi, S) && MappedKept(m, n, pd, hi, hi + 1) && TablesFrom(m, n, pd, added)
    requires Translate(n, pd, hi) == Some(f) && f !in S && f !in added && S !! added
    requires forall t :: 0 <= t < 1024 ==> Table(m, pd, t) != f
    ensures OwnFrames(n, pd, lo, hi + 1, S + {f})
  {
    forall pg | lo <= pg < hi ensures Translate(n, pd, pg) == Translate(m, pd, pg) {
    }
  }

  lemma FramesOfMore(m: Memory, n: Memory, pd: nat, lo: nat, hi: nat, f: nat)
    requires pd < MAX_FRAMES && lo <= hi < PAGES && MappedKept(m, n, pd, hi, hi + 1) && Translate(n, pd, hi) == Some(f)
    requires forall pg :: lo <= pg < hi ==> Translate(m, pd, pg).Some?
    ensures FramesOf(n, pd, lo, hi + 1) == FramesOf(m, pd, lo, hi) + {f}
  {
    forall pg | lo <= pg < hi ensures Translate(n, pd, pg) == Translate(m, pd, pg) {
    }
    forall x | x in FramesOf(m, pd, lo, hi) ensures x in FramesOf(n, pd, lo, hi + 1) {
      var pg :| lo <= pg < hi && Translate(m, pd, pg) == Some(x);
      assert Translate(n, pd, pg) == Some(x);
    }
  }

  lemma OwnMapped(m: Memory, pd: nat, lo: nat, hi: nat, S: set<nat>)
    requires pd < MAX_FRAMES && lo <= hi <= PAGES && OwnFrames(m, pd, lo, hi, S)
    ensures forall pg :: lo <= pg < hi ==> Translate(m, pd, pg).Some?
  {
  }

  lemma MappedKeptStep(m0: Memory, m: Memory, n: Memory, pd: nat, lo: nat, hi: nat)
    requires pd < MAX_FRAMES && lo <= hi < PAGES && MappedKept(m0, m, pd, lo, hi) && MappedKept(m, n, pd, hi, hi + 1)
    ensures MappedKept(m0, n, pd, lo, hi + 1)
  {
  }

  lemma NothingMoved(m: Memory, pd: nat, n: nat)
    requires pd < MAX_FRAMES
    ensures KeptOutside(m, m, pd, n, n)
  {
  }

  lemma KeptOutsideStep(m0: Memory, m: Memory, n: Memory, pd: nat, lo: nat, hi: nat)
    requires pd < MAX_FRAMES && lo <= hi < PAGES && KeptOutside(m0, m, pd, lo, hi) && OthersKept(m, n, pd, hi)
    ensures KeptOutside(m0, n, pd, lo, hi + 1)
  {
  }

  lemma TablesFromStep(m0: Memory, m: Memory, n: Memory, pd: nat, tables: set<nat>, added: set<nat>)
    requires pd < MAX_FRAMES && TablesFrom(m0, m, pd, tables) && TablesFrom(m, n, pd, added)
    ensures TablesFrom(m0, n, pd, tables + added)
  {
  }

  /** A frame that the allocator counts as taken and that is neither frame 0, the directory nor a table. */
  ghost predicate DataFrame(m: Memory, pd: nat, taken: set<nat>, f: nat)
    requires pd < MAX_FRAMES
  {
    f in taken && f != 0 && f != pd && forall t :: 0 <= t < 1024 ==> Table(m, pd, t) != f
  }

  /** What the data frames of `m` hold, they hold in `n`. */
  ghost predicate DataKept(m: Memory, n: Memory, pd: nat, taken: set<nat>)
    requires pd < MAX_FRAMES
  {
    forall f: nat :: f < MAX_FRAMES && DataFrame(m, pd, taken, f) ==> n[f] == m[f]
  }

  lemma WriteKeepsData(m0: Memory, m: Memory, pd: nat, taken: set<nat>, tables: set<nat>, pg: nat, d: Word, e: Word)
    requires pd < MAX_FRAMES && pg < PAGES && DataKept(m0, m, pd, taken) && TablesFrom(m0, m, pd, tables) && tables !! taken
    requires Target(m, pd, pg / 1024, d) && NewTables(m, pd, pg, d) !! taken
    ensures DataKept(m0, Write(m, pd, pg, d, e), pd, taken)
  {
    var n := Write(m, pd, pg, d, e);
    forall f: nat | f < MAX_FRAMES && DataFrame(m0, pd, taken, f) ensures n[f] == m0[f] {
      assert f != d.frame;
      assert n[f] == m[f];
    }
  }

  /**
   What page_map_until has done once pages [lo, hi) are added and `tables` are new page tables: the new
   pages have frames of their own that nobody had and that are no tables; no other page that was mapped
   moved; every slot has its old table or a new one; data frames hold what they held; and the frames gone are
   those of pages and tables.
   */
  ghost predicate Grown(s: Start, m: Memory, lo: nat, hi: nat, held: set<nat>, free: int, tables: set<nat>)
    requires s.pd < MAX_FRAMES && lo <= hi <= PAGES
  {
    var F := FramesOf(m, s.pd, lo, hi);
    && OwnFrames(m, s.pd, lo, hi, F) && F !! tables && F + tables !! s.taken
    && MappedKept(s.phys, m, s.pd, lo, hi) && TablesFrom(s.phys, m, s.pd, tables)
    && DataKept(s.phys, m, s.pd, s.taken)
    && held == s.held + tables + F
    && free == s.free - (hi - lo) - |tables|
  }

  lemma GrownStart(s: Start, lo: nat)
    requires s.pd < MAX_FRAMES && lo <= PAGES
    ensures Grown(s, s.phys, lo, lo, s.held, s.free, {})
  {
    assert FramesOf(s.phys, s.pd, lo, lo) == {};
  }

  /** If all below `lo` was mapped, all below `hi` is. */
  lemma GrownMaps(s: Start, m: Memory, lo: nat, hi: nat, held: set<nat>, free: int, tables: set<nat>)
    requires s.pd < MAX_FRAMES && lo <= hi <= PAGES && Grown(s, m, lo, hi, held, free, tables) && MappedTo(s.phys, s.pd, lo)
    ensures MappedTo(m, s.pd, hi)
  {
  }

  /** One more page, mapped to fresh frame `f`, with `added` the frame of a new table, if any. */
  lemma GrownStep(s: Start, m: Memory, n: Memory, lo: nat, hi: nat, held: set<nat>, free: int, tables: set<nat>,
                  f: nat, added: set<nat>)
    requires s.pd < MAX_FRAMES && lo <= hi < PAGES && Grown(s, m, lo, hi, held, free, tables)
    requires MappedKept(m, n, s.pd, hi, hi + 1) && Translate(n, s.pd, hi) == Some(f) && TablesFrom(m, n, s.pd, added)
    requires s.held <= s.taken && f !in s.taken + held && added !! s.taken + held + {f}
    requires (forall t :: 0 <= t < 1024 ==> Table(m, s.pd, t) != f) && DataKept(s.phys, n, s.pd, s.taken)
    ensures Grown(s, n, lo, hi + 1, held + {f} + added, free - 1 - |added|, tables + added)
  {
    hide OwnFrames, MappedKept, TablesFrom, DataKept, FramesOf, Translate, Table;
    var F := FramesOf(m, s.pd, lo, hi);
    OwnMapped(m, s.pd, lo, hi, F);
    OneMorePage(m, n, s.pd, lo, hi, F, f, added);
    FramesOfMore(m, n, s.pd, lo, hi, f);
    MappedKeptStep(s.phys, m, n, s.pd, lo, hi);
    TablesFromStep(s.phys, m, n, s.pd, tables, added);
    assert |tables + added| == |tables| + |added|;
  }

  lemma GrownData(s: Start, m: Memory, lo: nat, hi: nat, held: set<nat>, free: int, tables: set<nat>)
    requires s.pd < MAX_FRAMES && lo <= hi <= PAGES && Grown(s, m, lo, hi, held, free, tables)
    ensures DataKept(s.phys, m, s.pd, s.taken) && TablesFrom(s.phys, m, s.pd, tables) && tables !! s.taken
  {
  }

  /** A turn that took frame `f` for page `hi` and left directory word `d`. */
  lemma GrownTurn(s: Start, u: Start, n: Memory, lo: nat, hi: nat, held: set<nat>, free: int, tables: set<nat>,
                  taken: set<nat>, f: nat, d: Word, e: Word, held': set<nat>, free': int)
    requires s.pd < MAX_FRAMES && lo <= hi < PAGES && u.pd == s.pd
    requires u.held == held + {f} && u.taken == taken + {f} && u.free == free - 1
    requires s.held <= s.taken <= taken && held <= taken && f !in taken
    requires TookTable(u, hi, d, held', free')
    requires n == Write(u.phys, s.pd, hi, d, e) && Translate(n, s.pd, hi) == Some(f)
    requires Directory(u.phys, s.pd, taken) && MappedKept(u.phys, n, s.pd, hi, hi + 1)
    requires Grown(s, u.phys, lo, hi, held, free, tables)
    ensures Grown(s, n, lo, hi + 1, held', free', tables + NewTables(u.phys, s.pd, hi, d))
  {
    hide OwnFrames, MappedKept, FramesOf, Translate, Table, Directory, Grown, Write, TablesFrom, Target, DataKept;
    NewFrameIsNoTable(u.phys, s.pd, taken, f);
    WriteTables(u.phys, s.pd, hi, d, e);
    GrownData(s, u.phys, lo, hi, held, free, tables);
    WriteKeepsData(s.phys, u.phys, s.pd, s.taken, tables, hi, d, e);
    GrownStep(s, u.phys, n, lo, hi, held, free, tables, f, NewTables(u.phys, s.pd, hi, d));
  }

  /** What page_free_above has done once pages [lo, k) of [lo, hi) are unmapped. */
  ghost predicate Shrunk(s: Start, m: Memory, lo: nat, k: nat, hi: nat, held: set<nat>, free: int)
    requires s.pd < MAX_FRAMES && lo <= k <= hi <= PAGES
  {
    && (forall pg :: lo <= pg < k ==> Translate(m, s.pd, pg).None?)
    && OwnFrames(m, s.pd, k, hi, held)
    && KeptOutside(s.phys, m, s.pd, lo, k)
    && held == s.held - FramesOf(s.phys, s.pd, lo, k)
    && free == s.free + (k - lo)
  }

  lemma ShrunkStart(s: Start, lo: nat, hi: nat)
    requires s.pd < MAX_FRAMES && lo <= hi <= PAGES && OwnFrames(s.phys, s.pd, lo, hi, s.held)
    ensures Shrunk(s, s.phys, lo, lo, hi, s.held, s.free)
  {
    assert FramesOf(s.phys, s.pd, lo, lo) == {};
  }

  lemma ShrunkNext(s: Start, m: Memory, lo: nat, k: nat, hi: nat, held: set<nat>, free: int)
    requires s.pd < MAX_FRAMES && lo <= k < hi <= PAGES && Shrunk(s, m, lo, k, hi, held, free)
    ensures Translate(m, s.pd, k).Some? && OwnFrames(m, s.pd, k, k + 1, held)
    ensures held == s.held - FramesOf(s.phys, s.pd, lo, k) && free == s.free + (k - lo)
  {
  }

  lemma TopUnique(m: Memory, pd: nat, a: nat, b: nat)
    requires pd < MAX_FRAMES && IsTop(m, pd, a) && IsTop(m, pd, b)
    ensures a == b
  {
  }

  lemma ShrunkStep(s: Start, m: Memory, n: Memory, lo: nat, k: nat, hi: nat, held: set<nat>, free: int)
    requires s.pd < MAX_FRAMES && lo <= k < hi <= PAGES && Shrunk(s, m, lo, k, hi, held, free)
    requires Translate(n, s.pd, k).None? && OthersKept(m, n, s.pd, k)
    requires forall t :: 0 <= t < 1024 ==> Table(n, s.pd, t) == Table(m, s.pd, t)
    ensures Translate(m, s.pd, k).Some?
    ensures Shrunk(s, n, lo, k + 1, hi, held - {Translate(m, s.pd, k).value}, free + 1)
  {
    var f := Translate(m, s.pd, k).value;
    assert Translate(s.phys, s.pd, k) == Some(f);
    forall pg | k < pg < hi ensures Translate(n, s.pd, pg) == Translate(m, s.pd, pg) {
    }
    FramesOfStep(s.phys, s.pd, lo, k, f);
  }

  lemma ShrunkUnmap(s: Start, u: Start, n: Memory, lo: nat, k: nat, hi: nat, held: set<nat>, free: int)
    requires s.pd < MAX_FRAMES && u.pd == s.pd && lo <= k < hi <= PAGES
    requires Shrunk(s, u.phys, lo, k, hi, u.held, u.free) && Unmapped(u, n, k, held, free)
    ensures Shrunk(s, n, lo, k + 1, hi, held, free)
  {
    ShrunkStep(s, u.phys, n, lo, k, hi, u.held, u.free);
  }

  lemma FramesOfStep(m: Memory, pd: nat, lo: nat, k: nat, f: nat)
    requires pd < MAX_FRAMES && lo <= k < PAGES && Translate(m, pd, k) == Some(f)
    ensures FramesOf(m, pd, lo, k + 1) == FramesOf(m, pd, lo, k) + {f}
  {
    forall x | x in FramesOf(m, pd, lo, k) ensures x in FramesOf(m, pd, lo, k + 1) {
      var pg :| lo <= pg < k && Translate(m, pd, pg) == Some(x);
      assert Translate(m, pd, pg) == Some(x);
    }
  }

  /** Nothing in the kernel area is mapped above its mapped prefix, up to and including page `last`. */
  ghost predicate NoneAbove(m: Memory, pd: nat, last: nat)
    requires pd < MAX_FRAMES && last < PAGES
  {
    forall pg, q :: FIRST_PAGE <= pg <= q <= last && Translate(m, pd, pg).None? ==> Translate(m, pd, q).None?
  }

  lemma GrownTop(s: Start, m: Memory, lo: nat, hi: nat, held: set<nat>, free: int, tables: set<nat>)
    requires s.pd < MAX_FRAMES && lo <= hi <= LAST_PAGE && IsTop(s.phys, s.pd, lo) && (lo < hi ==> NoneAbove(s.phys, s.pd, hi))
    requires Grown(s, m, lo, hi, held, free, tables) && KeptOutside(s.phys, m, s.pd, lo, hi)
    ensures IsTop(m, s.pd, hi) && OwnFrames(m, s.pd, lo, hi, held)
  {
    GrownMaps(s, m, lo, hi, held, free, tables);
    assert hi < LAST_PAGE ==> Translate(m, s.pd, hi) == Translate(s.phys, s.pd, hi);
  }

  /** Growing the heap and freeing what was added undoes everything but the new page tables. */
  lemma ShrinkUndoesGrow(s: Start, m: Memory, n: Memory, lo: nat, hi: nat, held: set<nat>, free: int, tables: set<nat>,
                         held': set<nat>, free': int, taken: set<nat>)
    requires s.pd < MAX_FRAMES && lo <= hi <= LAST_PAGE && IsTop(s.phys, s.pd, lo) && (lo < hi ==> NoneAbove(s.phys, s.pd, hi))
    requires s.held <= s.taken && free >= 0
    requires Grown(s, m, lo, hi, held, free, tables) && KeptOutside(s.phys, m, s.pd, lo, hi)
    requires Shrunk(Start(m, s.pd, taken, held, free), n, lo, hi, hi, held', free')
    ensures forall pg: nat :: pg < PAGES ==> Translate(n, s.pd, pg) == Translate(s.phys, s.pd, pg)
    ensures held' == s.held + tables && free' == s.free - |tables|
  {
    forall pg: nat | pg < PAGES ensures Translate(n, s.pd, pg) == Translate(s.phys, s.pd, pg) {
      if lo <= pg < hi {
        assert Translate(s.phys, s.pd, pg).None?;
      } else {
        assert Translate(n, s.pd, pg) == Translate(m, s.pd, pg);
      }
    }
  }

  // ------------------------------------------------------------- page_unmap

  /** Memory after page_unmap: the directory word gets its flags, and the entry it leads to is cleared. */
  function Cleared(m: Memory, pd: nat, pg: nat): Memory
    requires pd < MAX_FRAMES && pg < PAGES
  {
    var n := Put(m, pd, pg / 1024, Or3(m[pd][pg / 1024]));
    Put(n, Table(n, pd, pg / 1024), pg % 1024, ZERO)
  }

  /** The frame that page_unmap frees. */
  function Named(m: Memory, pd: nat, pg: nat): (f: nat)
    requires pd < MAX_FRAMES && pg < PAGES
    ensures f < MAX_FRAMES
  {
    var n := Put(m, pd, pg / 1024, Or3(m[pd][pg / 1024]));
    n[Table(n, pd, pg / 1024)][pg % 1024].frame
  }

  /** Page `pg` is no longer mapped, its frame is given back, and nothing else changed. */
  ghost predicate Unmapped(s: Start, n: Memory, pg: nat, held: set<nat>, free: int)
    requires s.pd < MAX_FRAMES && pg < PAGES
  {
    && Translate(s.phys, s.pd, pg).Some? && Translate(n, s.pd, pg).None? && OthersKept(s.phys, n, s.pd, pg)
    && (forall t :: 0 <= t < 1024 ==> Table(n, s.pd, t) == Table(s.phys, s.pd, t))
    && held == s.held - {Translate(s.phys, s.pd, pg).value} && free == s.free + 1
  }

  lemma ClearedUnmaps(s: Start, pg: nat)
    requires s.pd < MAX_FRAMES && pg < PAGES && Sound(s.phys, s.pd, s.taken)
    requires Translate(s.phys, s.pd, pg).Some? && OwnFrames(s.phys, s.pd, pg, pg + 1, s.held) && s.held <= s.taken
    requires 0 !in s.held && s.pd !in s.held
    ensures var f, n := Named(s.phys, s.pd, pg), Cleared(s.phys, s.pd, pg);
            f in s.held && Sound(n, s.pd, s.taken - {f}) && Unmapped(s, n, pg, s.held - {f}, s.free + 1)
  {
    var m, pd, t := s.phys, s.pd, pg / 1024;
    var d, n := Or3(m[pd][t]), Cleared(m, pd, pg);
    var f := Translate(m, pd, pg).value;
    MappedHasTable(m, pd, s.taken, pg);
    OldTarget(m, pd, s.taken, t);
    assert n == Write(m, pd, pg, d, ZERO) && Named(m, pd, pg) == f;
    MapIsolatedIff(m, pd, s.taken, pg, d, ZERO);
    WriteKeepsDirectory(m, pd, s.taken, pg, d, ZERO);
    WriteKeepsEntries(m, pd, s.taken, pg, d, ZERO);
    assert s.taken + {d.frame} == s.taken;
    assert forall u :: 0 <= u < 1024 && u != t ==> n[pd][u] == m[pd][u];
    assert forall u :: 0 <= u < 1024 ==> Table(n, pd, u) == Table(m, pd, u);
    ShrinkTaken(n, pd, s.taken, f);
  }

  datatype Turn = Hang | Empty | Mapped

  class AddressSpace {
    const frames: FrameAllocator
    /** The frame of the page directory, as loaded in CR3. */
    const pd: nat
    var phys: Memory

    /** The map as the boot code leaves it: a directory in memory, and an allocator. */
    constructor (frames: FrameAllocator, pd: nat, phys: Memory)
      ensures this.frames == frames && this.pd == pd && this.phys == phys
    {
      this.frames, this.pd, this.phys := frames, pd, phys;
    }

    ghost function Taken(): set<nat>
      reads this, frames
    {
      frames.reserved + frames.held
    }

    /** The allocator is consistent, and the directory's tables are frames of their own that it counts as taken. */
    ghost predicate Base()
      reads this, frames, frames.bitmap
    {
      && frames.Valid() && pd < MAX_FRAMES
      && 0 in frames.reserved && pd in frames.reserved
      && Directory(phys, pd, Taken())
    }

    ghost predicate Valid()
      reads this, frames, frames.bitmap
    {
      Base() && Entries(phys, pd)
    }

    /** Valid, and the free frames are clear. */
    ghost predicate Clean()
      reads this, frames, frames.bitmap
    {
      Valid() && ClearFree(phys, Taken())
    }

    ghost function Snapshot(): Start
      reads this, frames
    {
      Start(phys, pd, Taken(), frames.held, frames.framesFree)
    }

    /** The directory part of page_map: the word for slot `t`, with a frame from frame_get if the slot is empty. */
    method TableFor(t: nat, ghost pg: nat) returns (ok: bool, d: Word)
      requires Base() && pg < PAGES && t == pg / 1024
      modifies frames`frameIdx, frames`framesFree, frames`held, frames.bitmap
      ensures frames.Valid()
      ensures !ok ==> !HasFreeGroup(frames.View()) && frames.held == old(frames.held)
      ensures ok ==> TookTable(old(Snapshot()), pg, d, frames.held, frames.framesFree)
      ensures Table(phys, pd, t) != 0 ==> ok && Unused(old(frames.View()), old(frames.frameIdx), frames)
    {
      hide Inv, Directory, Target;
      var entry: Word := phys[pd][t];
      if entry.frame == 0 {
        var f := frames.FrameGet();
        if f.None? {
          return false, ZERO;
        }
        entry := Bits(f.value, 0);
        NewTarget(phys, pd, old(Taken()), t, f.value);
      } else {
        OldTarget(phys, pd, Taken(), t);
      }
      return true, Or3(entry);
    }

    /**
     page_map. `ok` is false where frame_get does not return. `d` is the directory
     word it leaves: it names frame 0 when a table was needed and no frame was left.
     */
    method PageMap(pAddr: u32, vAddr: u32) returns (ok: bool, ghost d: Word)
      requires Base()
      modifies this`phys, frames`frameIdx, frames`framesFree, frames`held, frames.bitmap
      ensures frames.Valid()
      ensures !ok ==> !HasFreeGroup(frames.View()) && phys == old(phys) && frames.held == old(frames.held)
      ensures ok ==> phys == Write(old(phys), pd, Page(vAddr), d, Pte(pAddr))
                     && TookTable(old(Snapshot()), Page(vAddr), d, frames.held, frames.framesFree)
                     && Translate(phys, pd, Page(vAddr)) == Some(pAddr / 0x1000)
                     && MappedKept(old(phys), phys, pd, Page(vAddr), Page(vAddr) + 1)
                     && (d.frame != 0 ==> Base())
      ensures ok ==> Writable(phys, pd, Page(vAddr)) && WritableKept(old(phys), phys, pd, Page(vAddr))
      // the two words it leaves: the slot's own flags with bits 0 and 1 set, and the page's frame with the same two
      ensures ok ==> var t := Page(vAddr) / 1024;
                     && phys[pd][t] == Bits(d.frame, old(phys)[pd][t].flags / 4 * 4 + 3)
                     && phys[d.frame][Page(vAddr) % 1024] == Bits(pAddr / 0x1000, 3)
      ensures Table(old(phys), pd, Page(vAddr) / 1024) != 0 ==> ok && Unused(old(frames.View()), old(frames.frameIdx), frames)
      // only with the free frames clear does no unmapped page become mapped
      ensures ok && old(Clean()) ==> OthersKept(old(phys), phys, pd, Page(vAddr)) && (d.frame != 0 ==> Clean())
    {
      hide Inv, Directory, Entries, ClearFree, Translate, OthersKept, MappedKept, Target, Page, NewTables, Write, Writable,
           WritableKept;
      IndicesNamePage(vAddr);
      ghost var m, taken, pg := phys, Taken(), Page(vAddr);
      var t := vAddr / 0x40_0000;
      var got, entry := TableFor(t, pg);
      ok, d := got, entry;
      if !ok {
        return;
      }
      phys := Put(phys, pd, t, entry);
      var table := phys[pd][t].frame;
      var p := vAddr / 0x1000 % 0x400;
      phys := Put(phys, table, p, Pte(pAddr));
      WriteIs(m, pd, pg, d, Pte(pAddr), phys);
      TargetNotDirectory(m, pd, pg / 1024, d);
      WriteMaps(m, pd, pg, d, Pte(pAddr));
      WriteMovesNone(m, pd, taken, pg, d, Pte(pAddr));
      WriteWritable(m, pd, taken, pg, d, Pte(pAddr));
      TargetFlags(m, pd, pg / 1024, d);
      assert taken + NewTables(m, pd, pg, d) == Taken();
      if d.frame != 0 {
        WriteKeepsBase(m, pd, taken, pg, d, Pte(pAddr));
      }
      if old(Clean()) {
        WriteKeeps(m, pd, taken, pg, d, Pte(pAddr));
      }
    }

    /** page_unmap of a page that is mapped to a held frame of its own. */
    ghost predicate Removable(pg: nat)
      requires pg < PAGES
      reads this, frames, frames.bitmap
    {
      Valid() && Translate(phys, pd, pg).Some? && OwnFrames(phys, pd, pg, pg + 1, frames.held)
    }

    /**
     page_unmap frees the frame that the page's entry names, whatever it is, and clears the entry. For a page
     mapped to a held frame that is no table this unmaps the page, moves no other, and keeps the map.
     */
    method PageUnmap(vAddr: u32)
      requires frames.View().WellSized() && pd < MAX_FRAMES
      modifies this`phys, frames`framesFree, frames`held, frames.bitmap
      ensures phys == Cleared(old(phys), pd, Page(vAddr))
      ensures frames.View() == Release(old(frames.View()), Named(old(phys), pd, Page(vAddr)))
      ensures frames.held == old(frames.held) - {Named(old(phys), pd, Page(vAddr))}
      ensures old(Removable(Page(vAddr))) ==> Valid() && Unmapped(old(Snapshot()), phys, Page(vAddr), frames.held, frames.framesFree)
    {
      hide Inv, Directory, Entries, Translate, OwnFrames, Unmapped, Release;
      IndicesNamePage(vAddr);
      ghost var s, taken, pg := Snapshot(), Taken(), Page(vAddr);
      ghost var ok := Removable(pg);
      var t := vAddr / 0x40_0000;
      phys := Put(phys, pd, t, Or3(phys[pd][t]));
      var table := phys[pd][t].frame;
      var p := vAddr / 0x1000 % 0x400;
      ghost var f := phys[table][p].frame;
      if ok {
        InvFacts(frames.View(), frames.reserved, frames.held);
        ClearedUnmaps(s, pg);
      }
      frames.FrameFree(phys[table][p].frame);
      phys := Put(phys, table, p, ZERO);
      if ok {
        assert taken - {f} == Taken();
      }
    }

    /** page_upper: the page before the first one whose word reads zero. */
    method PageUpper() returns (r: u32, ghost n: nat)
      requires pd < MAX_FRAMES
      ensures r % 0x1000 == 0 && n == r / 0x1000 + 1 && RawTop(phys, pd, r / 0x1000 + 1)
    {
      var v: u32 := 0xC000_0000;
      n := FIRST_PAGE;
      while v < 0xDFFF_0000
        invariant v == n * 0x1000 && FIRST_PAGE <= n <= LAST_PAGE
        invariant forall pg :: FIRST_PAGE <= pg < n ==> RawWord(phys, pd, pg) != ZERO
      {
        IndicesNamePage(v);
        PageOf(n);
        var t := v / 0x40_0000;
        var table := phys[pd][t].frame;
        var p := v / 0x1000 % 0x400;
        if phys[table][p] == ZERO {
          return v - 0x1000, n;
        }
        v := v + 0x1000;
        n := n + 1;
      }
      return v - 0x1000, n;
    }

    /** The allocator is as it was. */
    static ghost predicate Unused(before: State, idx: nat, frames: FrameAllocator)
      reads frames, frames.bitmap
    {
      frames.View() == before && frames.frameIdx == idx
    }

    /** Ready for the next turn: the directory is in order and, if it was so at the start, all is clean; or nothing is left. */
    ghost predicate Ready(clean: bool)
      reads this, frames, frames.bitmap
    {
      && frames.Valid() && pd < MAX_FRAMES
      && (frames.framesFree == 0 || (Base() && (clean ==> Clean())))
    }

    /**
     One turn of the loop of page_map_until: a frame for page `hi`, and a table frame if the
     page needs one. Hang where frame_get does not return, Empty when it returned NULL.
     */
    method MapNext(v: u32, ghost s: Start, ghost lo: nat, ghost tables: set<nat>, ghost clean: bool)
      returns (r: Turn, ghost tables': set<nat>)
      requires Ready(clean) && s.pd == pd && s.held <= s.taken <= Taken() && lo <= Page(v)
      requires Grown(s, phys, lo, Page(v), frames.held, frames.framesFree, tables)
      requires clean ==> KeptOutside(s.phys, phys, pd, lo, Page(v))
      modifies this`phys, frames`frameIdx, frames`framesFree, frames`held, frames.bitmap
      ensures frames.Valid() && (r.Hang? ==> !HasFreeGroup(frames.View()))
      ensures !r.Hang? ==> Ready(clean) && s.taken <= Taken()
      ensures r.Empty? ==> frames.framesFree == 0 && Unused(old(frames.View()), old(frames.frameIdx), frames)
      ensures r.Empty? ==> phys == old(phys) && frames.held == old(frames.held)
                           && Grown(s, phys, lo, Page(v), frames.held, frames.framesFree, tables)
      ensures r.Mapped? ==> Grown(s, phys, lo, Page(v) + 1, frames.held, frames.framesFree, tables')
      ensures r.Mapped? ==> MappedKept(old(phys), phys, pd, Page(v), Page(v) + 1)
      ensures r.Mapped? ==> Translate(phys, pd, Page(v)) == Some(NextFrame(old(frames.View()), old(frames.frameIdx)))
      ensures r.Mapped? && clean ==> KeptOutside(s.phys, phys, pd, lo, Page(v) + 1)
    {
      hide Inv, Directory, Entries, ClearFree, Write, Target, OthersKept, MappedKept, KeptOutside, Grown, Translate, NewTables,
           TookTable, HasFreeGroup, Page, Writable, WritableKept, Answers;
      tables' := tables;
      InvFacts(frames.View(), frames.reserved, frames.held);
      ghost var taken, m, held, free := Taken(), phys, frames.held, frames.framesFree;
      var p := frames.FrameGet();
      if p.None? {
        return Hang, tables;
      }
      if p.value == 0 {
        NothingGot(old(frames.View()), old(frames.frameIdx));
        return Empty, tables;
      }
      GrowDirectory(m, pd, taken, Taken());
      if clean {
        GrowTaken(m, pd, taken, Taken());
      }
      ghost var u := Snapshot();
      assert u.taken == taken + {p.value};
      var ok, d := PageMap(p.value * 0x1000, v);
      if !ok {
        return Hang, tables;
      }
      TookTableFacts(u, Page(v), d, frames.held, frames.framesFree);
      r, tables' := Mapped, tables + NewTables(m, pd, Page(v), d);
      GrownTurn(s, u, phys, lo, Page(v), held, free, tables, taken, p.value, d, Pte(p.value * 0x1000),
                frames.held, frames.framesFree);
      if clean {
        KeptOutsideStep(s.phys, m, phys, pd, lo, Page(v));
      }
    }

    /**
     page_map_until; None where frame_get does not return. Pages [start, end) were
     added, and `tables` are the frames that went to new page tables.
     */
    method PageMapUntil(newLimit: u32)
      returns (r: Option<u32>, ghost start: nat, ghost end: nat, ghost tables: set<nat>)
      requires Base() && newLimit < 0xFFFF_F000
      modifies this`phys, frames`frameIdx, frames`framesFree, frames`held, frames.bitmap
      ensures FIRST_PAGE <= start <= end < PAGES && frames.Valid() && (r.Some? ==> Ready(old(Clean())))
      ensures RawTop(old(phys), pd, start)
      ensures r.None? ==> !HasFreeGroup(frames.View())
      // the limit returned lies in the mapped prefix, and falls short only when no frame is left
      ensures r.Some? ==> r.value <= end * 0x1000
      ensures r.Some? ==> r.value == newLimit - newLimit % 0x1000 + 0x1000 || frames.framesFree == 0
      ensures r.Some? && start < end ==> r.value == end * 0x1000 <= newLimit - newLimit % 0x1000 + 0x1000
      ensures r.Some? ==> Grown(old(Snapshot()), phys, start, end, frames.held, frames.framesFree, tables)
      ensures r.Some? && start < end ==> Translate(phys, pd, start) == Some(NextFrame(old(frames.View()), old(frames.frameIdx)))
      ensures r.Some? && old(Clean()) ==> KeptOutside(old(phys), phys, pd, start, end)
      // where no page is added nothing changes, and that is so where the limit's page is mapped already
      ensures r.Some? && start == end ==> phys == old(phys) && tables == {} && frames.held == old(frames.held)
                                          && Unused(old(frames.View()), old(frames.frameIdx), frames)
      ensures newLimit / 0x1000 < start ==> start == end && r == Some(newLimit - newLimit % 0x1000 + 0x1000)
    {
      hide Inv, Directory, Entries, ClearFree, Translate, Page, Grown, KeptOutside, RawTop, NextFrame;
      ghost var s, clean := Snapshot(), Clean();
      ghost var first := NextFrame(frames.View(), frames.frameIdx);
      var upper, n := PageUpper();
      TopInArea(phys, pd, n);
      var oldLimit := upper + 0x1000;
      start, end, tables := n, n, {};
      GrownStart(s, n);
      NothingMoved(phys, pd, n);
      var limit := newLimit - newLimit % 0x1000;
      while oldLimit <= limit
        invariant oldLimit == end * 0x1000 && FIRST_PAGE <= start <= end < PAGES
        invariant end == start || oldLimit <= limit + 0x1000
        invariant Ready(clean) && s.taken <= Taken()
        invariant Grown(s, phys, start, end, frames.held, frames.framesFree, tables)
        invariant clean ==> KeptOutside(s.phys, phys, pd, start, end)
        invariant start == end ==> phys == s.phys && tables == {} && frames.held == s.held
                                   && Unused(old(frames.View()), old(frames.frameIdx), frames)
        invariant start < end ==> Translate(phys, pd, start) == Some(first)
        decreases PAGES - end
      {
        PageOf(end);
        var turn, tables' := MapNext(oldLimit, s, start, tables, clean);
        match turn
        case Hang => return None, start, end, tables;
        case Empty => return Some(oldLimit), start, end, tables;
        case Mapped =>
          end, tables := end + 1, tables';
          oldLimit := oldLimit + 0x1000;
      }
      return Some(limit + 0x1000), start, end, tables;
    }

    /** page_free_above, where the pages above `limit` up to the top `hi` map to held frames of their own. */
    method PageFreeAbove(limit: u32, ghost lo: nat, ghost hi: nat) returns (r: u32)
      requires Valid() && IsTop(phys, pd, hi) && limit < 0xFFFF_F000 && lo == limit / 0x1000 + 1
      requires FIRST_PAGE <= lo <= hi && OwnFrames(phys, pd, lo, hi, frames.held)
      modifies this`phys, frames`framesFree, frames`held, frames.bitmap
      ensures Valid() && r == hi * 0x1000
      ensures Shrunk(old(Snapshot()), phys, lo, hi, hi, frames.held, frames.framesFree)
    {
      hide Inv, Directory, Entries, MappedTo, Page, KeptOutside, Translate, FramesOf, Unmapped;
      ghost var s := Snapshot();
      var limitPage := limit - limit % 0x1000 + 0x1000;
      var upper, n := PageUpper();
      RawTopIsTop(phys, pd, Taken(), n);
      TopUnique(phys, pd, hi, n);
      ghost var k := lo;
      ShrunkStart(s, lo, hi);
      hide Shrunk, OwnFrames;
      while limitPage <= upper
        invariant limitPage == k * 0x1000 && lo <= k <= hi
        invariant Valid() && Shrunk(s, phys, lo, k, hi, frames.held, frames.framesFree)
      {
        PageOf(k);
        ghost var u := Snapshot();
        InvFacts(frames.View(), frames.reserved, frames.held);
        ShrunkNext(s, phys, lo, k, hi, frames.held, frames.framesFree);
        PageUnmap(limitPage);
        ShrunkUnmap(s, u, phys, lo, k, hi, frames.held, frames.framesFree);
        k := k + 1;
        limitPage := limitPage + 0x1000;
      }
      return limitPage;
    }

    /**
     page_map_until, then page_free_above of the old top: every page translates as before, and of the
     frames taken only those of new page tables are still held. `done` fails only when frame_get does
     not return or no frame is left.
     */
    method GrowThenShrink(newLimit: u32) returns (done: bool, ghost tables: set<nat>)
      requires Clean() && FIRST_PAGE <= newLimit / 0x1000 < LAST_PAGE
      requires NoneAbove(phys, pd, newLimit / 0x1000 + 1)
      modifies this`phys, frames`frameIdx, frames`framesFree, frames`held, frames.bitmap
      ensures !done ==> !HasFreeGroup(frames.View()) || frames.framesFree == 0
      ensures done ==> Valid() && forall pg: nat :: pg < PAGES ==> Translate(phys, pd, pg) == Translate(old(phys), pd, pg)
      ensures done ==> frames.held == old(frames.held) + tables && frames.framesFree == old(frames.framesFree) - |tables|
    {
      hide Inv, Directory, Entries, ClearFree, Grown, Shrunk, OwnFrames, NoneAbove, Translate, KeptOutside, RawTop;
      ghost var s := Snapshot();
      var upper, n := PageUpper();
      var r, lo, hi, T := PageMapUntil(newLimit);
      tables := T;
      RawTopIsTop(s.phys, pd, s.taken, n);
      RawTopIsTop(s.phys, pd, s.taken, lo);
      TopUnique(s.phys, pd, n, lo);
      if r.None? || frames.framesFree == 0 {
        return false, tables;
      }
      done := true;
      ghost var held, free, m, taken := frames.held, frames.framesFree, phys, Taken();
      assert lo < hi ==> hi == newLimit / 0x1000 + 1;
      GrownTop(s, m, lo, hi, held, free, tables);
      var above := PageFreeAbove(upper + 0xFFF, lo, hi);
      ShrinkUndoesGrow(s, m, phys, lo, hi, held, free, tables, frames.held, frames.framesFree, taken);
    }
  }
}
