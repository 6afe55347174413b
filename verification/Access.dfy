/**
 Data accesses through the page map of kernel/x86/page.c. The directory, its tables and all data share one
 physical memory, so a store through a mapped page can change the map itself, or leave something in a frame
 that frame_get will hand out as a page table. Which frames a store may go to is settled here.
 */
module Access {
  import opened Machine
  import opened Frames
  import opened Paging

  /** Every page translates in `n` as in `m`. */
  ghost predicate SameMap(m: Memory, n: Memory, pd: nat)
    requires pd < MAX_FRAMES
  {
    forall q: nat :: q < PAGES ==> Translate(n, pd, q) == Translate(m, pd, q)
  }

  ghost predicate SameTables(m: Memory, n: Memory, pd: nat)
    requires pd < MAX_FRAMES
  {
    forall t :: 0 <= t < 1024 ==> Table(n, pd, t) == Table(m, pd, t)
  }

  /** `n` is as good a memory as `m`: the map is sound and unchanged, and the free frames are clear. */
  ghost predicate Harmless(m: Memory, n: Memory, pd: nat, taken: set<nat>)
    requires pd < MAX_FRAMES
  {
    Sound(n, pd, taken) && ClearFree(n, taken) && SameMap(m, n, pd)
  }

  /** No store to frame `f`, of whatever value to whatever word, does harm. */
  ghost predicate StoresHarmless(m: Memory, pd: nat, taken: set<nat>, f: nat)
    requires pd < MAX_FRAMES && f < MAX_FRAMES
  {
    forall i: nat, x: Word :: i < 1024 ==> Harmless(m, Put(m, f, i, x), pd, taken)
  }

  lemma DataStore(m: Memory, pd: nat, taken: set<nat>, f: nat, i: nat, x: Word)
    requires pd < MAX_FRAMES && f < MAX_FRAMES && i < 1024
    requires Sound(m, pd, taken) && ClearFree(m, taken) && DataFrame(m, pd, taken, f)
    ensures Harmless(m, Put(m, f, i, x), pd, taken) && SameTables(m, Put(m, f, i, x), pd)
  {
    var n := Put(m, f, i, x);
    assert forall t :: 0 <= t < 1024 ==> n[pd][t] == m[pd][t];
    DataStoreSound(m, n, pd, taken, f);
    forall q: nat | q < PAGES ensures Translate(n, pd, q) == Translate(m, pd, q) {
      assert n[Table(m, pd, q / 1024)][q % 1024] == m[Table(m, pd, q / 1024)][q % 1024];
    }
  }

  lemma DataStoreSound(m: Memory, n: Memory, pd: nat, taken: set<nat>, f: nat)
    requires pd < MAX_FRAMES && Sound(m, pd, taken) && DataFrame(m, pd, taken, f)
    requires forall t :: 0 <= t < 1024 ==> n[pd][t] == m[pd][t]
    requires forall g, j :: 0 <= g < MAX_FRAMES && 0 <= j < 1024 && g != f ==> n[g][j] == m[g][j]
    ensures Sound(n, pd, taken)
  {
    assert forall t :: 0 <= t < 1024 ==> Table(n, pd, t) == Table(m, pd, t);
    forall t, p | 0 <= t < 1024 && 0 <= p < 1024 && Table(n, pd, t) != 0
      ensures var y := n[Table(n, pd, t)][p]; y == ZERO || Present(y)
    {
      assert n[Table(m, pd, t)][p] == m[Table(m, pd, t)][p];
    }
  }

  /** The word that tells a frame of the map from a data frame: neither zero nor present. */
  const STALE: Word := Bits(0, 2)

  lemma StaleHarms(m: Memory, pd: nat, taken: set<nat>, f: nat, i: nat)
    requires pd < MAX_FRAMES && f < MAX_FRAMES && i < 1024 && Sound(m, pd, taken)
    requires f !in taken || f == 0 || f == pd || exists t :: 0 <= t < 1024 && Table(m, pd, t) == f
    ensures !Harmless(m, Put(m, f, i, STALE), pd, taken)
  {
    hide SameMap, Translate;
    var n := Put(m, f, i, STALE);
    assert n[f][i] != ZERO && !Present(n[f][i]);
    if f != pd && f != 0 && f in taken {
      var t :| 0 <= t < 1024 && Table(m, pd, t) == f;
      assert n[pd][t] == m[pd][t];
    } else if f == pd {
      assert Table(n, pd, i) == 0;
    }
  }

  /**
   Storing through a frame keeps the map sound, the free frames clear and every page in place, whatever is
   stored, exactly when the frame is taken and is neither frame 0, the directory nor a page table.
   */
  lemma StoresHarmlessIff(m: Memory, pd: nat, taken: set<nat>, f: nat)
    requires pd < MAX_FRAMES && f < MAX_FRAMES && Sound(m, pd, taken) && ClearFree(m, taken)
    ensures StoresHarmless(m, pd, taken, f) <==> DataFrame(m, pd, taken, f)
  {
    hide Sound, ClearFree, SameMap, Harmless;
    if DataFrame(m, pd, taken, f) {
      forall i: nat, x: Word | i < 1024 ensures Harmless(m, Put(m, f, i, x), pd, taken) {
        DataStore(m, pd, taken, f, i, x);
      }
    } else {
      StaleHarms(m, pd, taken, f, 0);
    }
  }

  // -------------------------------------------------------- a stretch of data pages

  /** No two pages of [lo, hi) are mapped to one frame. */
  ghost predicate Injective(m: Memory, pd: nat, lo: nat, hi: nat)
    requires pd < MAX_FRAMES && hi <= PAGES
  {
    forall pg, q :: lo <= pg < q < hi && Translate(m, pd, pg).Some? ==> Translate(m, pd, pg) != Translate(m, pd, q)
  }

  /** What is mapped of [lo, hi) is mapped to data frames, each page to its own. */
  ghost predicate DataPages(m: Memory, pd: nat, taken: set<nat>, lo: nat, hi: nat)
    requires pd < MAX_FRAMES && hi <= PAGES
  {
    && (forall pg :: lo <= pg < hi && Translate(m, pd, pg).Some? ==> DataFrame(m, pd, taken, Translate(m, pd, pg).value))
    && Injective(m, pd, lo, hi)
  }

  /** The word a program reads at word `i` of page `pg`. */
  function Load(m: Memory, pd: nat, pg: nat, i: nat): Option<Word>
    requires pd < MAX_FRAMES && pg < PAGES && i < 1024
  {
    var f := Translate(m, pd, pg);
    if f.None? || f.value >= MAX_FRAMES then None else Some(m[f.value][i])
  }

  lemma SameMapData(m: Memory, n: Memory, pd: nat, taken: set<nat>, lo: nat, hi: nat)
    requires pd < MAX_FRAMES && hi <= PAGES && DataPages(m, pd, taken, lo, hi) && SameMap(m, n, pd) && SameTables(m, n, pd)
    ensures DataPages(n, pd, taken, lo, hi)
  {
    forall pg | lo <= pg < hi ensures Translate(n, pd, pg) == Translate(m, pd, pg) {
    }
  }

  /** A store to a data page is read back there and nowhere else among the data pages, and does no harm to the map. */
  lemma StoreThenLoad(m: Memory, pd: nat, taken: set<nat>, lo: nat, hi: nat, pg: nat, i: nat, x: Word, q: nat, j: nat)
    requires pd < MAX_FRAMES && lo <= pg < hi <= PAGES && lo <= q < hi && i < 1024 && j < 1024
    requires Translate(m, pd, pg).Some? && Translate(m, pd, pg).value < MAX_FRAMES
    requires Sound(m, pd, taken) && ClearFree(m, taken) && DataPages(m, pd, taken, lo, hi)
    ensures var n := Put(m, Translate(m, pd, pg).value, i, x);
            && Harmless(m, n, pd, taken) && DataPages(n, pd, taken, lo, hi)
            && Load(n, pd, q, j) == if q == pg && j == i then Some(x) else Load(m, pd, q, j)
  {
    hide Sound, ClearFree, Translate;
    var f := Translate(m, pd, pg).value;
    var n := Put(m, f, i, x);
    DataStore(m, pd, taken, f, i, x);
    SameMapData(m, n, pd, taken, lo, hi);
    if q < pg {
      assert Translate(m, pd, q).Some? ==> Translate(m, pd, q) != Translate(m, pd, pg);
    } else if pg < q {
      assert Translate(m, pd, pg) != Translate(m, pd, q);
    }
  }

  /** Growing the heap keeps a stretch of data pages what it is: the frames it takes are mapped nowhere in it. */
  lemma GrowthKeepsData(s: Start, m: Memory, lo: nat, hi: nat, held: set<nat>, free: int, tables: set<nat>, a: nat, b: nat)
    requires s.pd < MAX_FRAMES && lo <= hi <= PAGES && b <= PAGES && 0 in s.taken && s.pd in s.taken
    requires DataPages(s.phys, s.pd, s.taken, a, b)
    requires Grown(s, m, lo, hi, held, free, tables) && KeptOutside(s.phys, m, s.pd, lo, hi)
    ensures DataPages(m, s.pd, s.taken + held, a, b)
  {
    hide Translate, Table;
    forall pg | a <= pg < b && Translate(m, s.pd, pg).Some?
      ensures DataFrame(m, s.pd, s.taken + held, Translate(m, s.pd, pg).value)
    {
      GrowthKeepsDataFrame(s, m, lo, hi, held, free, tables, a, b, pg);
    }
    hide DataFrame;
    GrowthKeepsInjective(s, m, lo, hi, held, free, tables, a, b);
  }

  lemma GrowthKeepsDataFrame(s: Start, m: Memory, lo: nat, hi: nat, held: set<nat>, free: int, tables: set<nat>,
                             a: nat, b: nat, pg: nat)
    requires s.pd < MAX_FRAMES && lo <= hi <= PAGES && a <= pg < b <= PAGES && 0 in s.taken && s.pd in s.taken
    requires DataPages(s.phys, s.pd, s.taken, a, b) && Translate(m, s.pd, pg).Some?
    requires Grown(s, m, lo, hi, held, free, tables) && KeptOutside(s.phys, m, s.pd, lo, hi)
    ensures DataFrame(m, s.pd, s.taken + held, Translate(m, s.pd, pg).value)
  {
    hide Translate, Table, Injective, MappedKept;
    var f := Translate(m, s.pd, pg).value;
    if lo <= pg < hi {
      assert f in FramesOf(m, s.pd, lo, hi);
    } else {
      assert Translate(s.phys, s.pd, pg) == Some(f);
    }
  }

  lemma GrowthKeepsInjective(s: Start, m: Memory, lo: nat, hi: nat, held: set<nat>, free: int, tables: set<nat>, a: nat, b: nat)
    requires s.pd < MAX_FRAMES && lo <= hi <= PAGES && b <= PAGES
    requires DataPages(s.phys, s.pd, s.taken, a, b)
    requires Grown(s, m, lo, hi, held, free, tables) && KeptOutside(s.phys, m, s.pd, lo, hi)
    ensures Injective(m, s.pd, a, b)
  {
    hide Translate, Table, MappedKept, TablesFrom;
    forall pg, q | a <= pg < q < b && Translate(m, s.pd, pg).Some? && Translate(m, s.pd, q).Some?
      ensures Translate(m, s.pd, pg) != Translate(m, s.pd, q)
    {
      var f, g := Translate(m, s.pd, pg).value, Translate(m, s.pd, q).value;
      if lo <= pg < hi {
        assert f in FramesOf(m, s.pd, lo, hi);
      } else {
        assert Translate(s.phys, s.pd, pg) == Some(f);
      }
      if lo <= q < hi {
        assert g in FramesOf(m, s.pd, lo, hi);
      } else {
        assert Translate(s.phys, s.pd, q) == Some(g);
      }
    }
  }

  // ------------------------------------------------------------------- bytes

  /** A word cut at its byte borders: the low byte, the two halves of the second, and the two upper bytes. */
  datatype Parts = Parts(b0: nat, low: nat, high: nat, b2: nat, b3: nat) {
    predicate Fit() { b0 < 256 && low < 16 && high < 16 && b2 < 256 && b3 < 256 }
  }

  function Cut(w: Word): (p: Parts)
    ensures p.Fit()
  {
    Parts(w.flags % 256, w.flags / 256, w.frame % 16, w.frame / 16 % 256, w.frame / 4096)
  }

  function Glue(p: Parts): Word
    requires p.Fit()
  {
    Bits(p.b3 * 4096 + p.b2 * 16 + p.high, p.low * 256 + p.b0)
  }

  lemma CutGlue(p: Parts)
    requires p.Fit()
    ensures Cut(Glue(p)) == p
  {
    var frame := Glue(p).frame;
    assert frame == (p.b3 * 256 + p.b2) * 16 + p.high;
    assert frame / 16 == p.b3 * 256 + p.b2;
  }

  /** Byte `k` of a word, the low one first. */
  function WordByte(w: Word, k: nat): u8
    requires k < 4
  {
    var p := Cut(w);
    if k == 0 then p.b0 else if k == 1 then p.low + 16 * p.high else if k == 2 then p.b2 else p.b3
  }

  function SetByte(w: Word, k: nat, b: u8): Word
    requires k < 4
  {
    var p := Cut(w);
    Glue(if k == 0 then p.(b0 := b) else if k == 1 then p.(low := b % 16, high := b / 16)
         else if k == 2 then p.(b2 := b) else p.(b3 := b))
  }

  lemma SetByteReads(w: Word, k: nat, b: u8, j: nat)
    requires k < 4 && j < 4
    ensures WordByte(SetByte(w, k, b), j) == if j == k then b else WordByte(w, j)
  {
    hide Cut, Glue;
    var p := Cut(w);
    CutGlue(if k == 0 then p.(b0 := b) else if k == 1 then p.(low := b % 16, high := b / 16)
            else if k == 2 then p.(b2 := b) else p.(b3 := b));
  }

  /** The four bytes, low one first, make up the word: its frame above its twelve flag bits. */
  lemma ByteOrder(w: Word)
    ensures WordByte(w, 0) + 0x100 * WordByte(w, 1) as int + 0x1_0000 * WordByte(w, 2) as int + 0x100_0000 * WordByte(w, 3) as int
            == 0x1000 * w.frame + w.flags
  {
  }

  const MEMORY := 0x1_0000_0000

  /** The byte a program reads at address `a`. */
  function LoadByte(m: Memory, pd: nat, a: nat): Option<u8>
    requires pd < MAX_FRAMES && a < MEMORY
  {
    var w := Load(m, pd, a / 0x1000, a / 4 % 1024);
    if w.None? then None else Some(WordByte(w.value, a % 4))
  }

  /** Memory after a store of byte `b` at address `a`; as it was where the page is not mapped, since the store faults. */
  function StoreByte(m: Memory, pd: nat, a: nat, b: u8): Memory
    requires pd < MAX_FRAMES && a < MEMORY
  {
    var f := Translate(m, pd, a / 0x1000);
    if f.None? || f.value >= MAX_FRAMES then m
    else Put(m, f.value, a / 4 % 1024, SetByte(m[f.value][a / 4 % 1024], a % 4, b))
  }

  /** The map is sound, the free frames are clear, pages [lo, hi) are data pages, and the kernel area is a mapped prefix. */
  ghost predicate Tidy(m: Memory, pd: nat, taken: set<nat>, lo: nat, hi: nat)
    requires pd < MAX_FRAMES && hi < PAGES
  {
    Sound(m, pd, taken) && ClearFree(m, taken) && DataPages(m, pd, taken, lo, hi) && NoneAbove(m, pd, hi)
  }

  lemma SameMapPrefix(m: Memory, n: Memory, pd: nat, hi: nat)
    requires pd < MAX_FRAMES && hi < PAGES && SameMap(m, n, pd) && NoneAbove(m, pd, hi)
    ensures NoneAbove(n, pd, hi)
  {
  }

  lemma AddressParts(a: nat)
    ensures a == a / 0x1000 * 0x1000 + a / 4 % 1024 * 4 + a % 4
  {
    assert a / 4 / 1024 == a / 0x1000;
  }

  /** A byte stored on the data pages is read back there and changes no other byte on them. */
  lemma StoreByteReads(m: Memory, pd: nat, taken: set<nat>, lo: nat, hi: nat, a: nat, b: u8, c: nat)
    requires pd < MAX_FRAMES && hi < PAGES && a < MEMORY && c < MEMORY && lo <= a / 0x1000 < hi && lo <= c / 0x1000 < hi
    requires Tidy(m, pd, taken, lo, hi)
    ensures var n := StoreByte(m, pd, a, b);
            LoadByte(n, pd, c) == if c == a && LoadByte(m, pd, a).Some? then Some(b) else LoadByte(m, pd, c)
  {
    hide Sound, ClearFree, DataPages, NoneAbove, Translate, Harmless, SetByte, WordByte;
    var f, i := Translate(m, pd, a / 0x1000), a / 4 % 1024;
    if f.Some? && f.value < MAX_FRAMES {
      var w := m[f.value][i];
      StoreThenLoad(m, pd, taken, lo, hi, a / 0x1000, i, SetByte(w, a % 4, b), c / 0x1000, c / 4 % 1024);
      SetByteReads(w, a % 4, b, c % 4);
      AddressParts(a);
      AddressParts(c);
    }
  }

  /** Every page translates as before, and every frame that is no data frame holds what it held. */
  ghost predicate Untouched(m: Memory, n: Memory, pd: nat, taken: set<nat>)
    requires pd < MAX_FRAMES
  {
    SameMap(m, n, pd) && forall f: nat :: f < MAX_FRAMES && !DataFrame(m, pd, taken, f) ==> n[f] == m[f]
  }

  lemma UntouchedSelf(m: Memory, pd: nat, taken: set<nat>)
    requires pd < MAX_FRAMES
    ensures Untouched(m, m, pd, taken)
  {
  }

  lemma UntouchedTables(m: Memory, n: Memory, pd: nat, taken: set<nat>)
    requires pd < MAX_FRAMES && Untouched(m, n, pd, taken)
    ensures n[pd] == m[pd] && SameTables(m, n, pd) && forall f: nat :: DataFrame(n, pd, taken, f) <==> DataFrame(m, pd, taken, f)
  {
    hide SameMap;
    assert !DataFrame(m, pd, taken, pd);
  }

  lemma UntouchedTwice(a: Memory, b: Memory, c: Memory, pd: nat, taken: set<nat>)
    requires pd < MAX_FRAMES && Untouched(a, b, pd, taken) && Untouched(b, c, pd, taken)
    ensures Untouched(a, c, pd, taken)
  {
    hide DataFrame;
    UntouchedTables(a, b, pd, taken);
  }

  /** The directory is in order for whatever frames it was. */
  lemma UntouchedDirectory(m: Memory, n: Memory, pd: nat, taken: set<nat>, all: set<nat>)
    requires pd < MAX_FRAMES && Untouched(m, n, pd, all) && Directory(m, pd, taken)
    ensures Directory(n, pd, taken)
  {
    hide Untouched;
    UntouchedTables(m, n, pd, all);
  }

  lemma StoreByteTidy(m: Memory, pd: nat, taken: set<nat>, lo: nat, hi: nat, a: nat, b: u8)
    requires pd < MAX_FRAMES && hi < PAGES && a < MEMORY && lo <= a / 0x1000 < hi && Tidy(m, pd, taken, lo, hi)
    ensures Tidy(StoreByte(m, pd, a, b), pd, taken, lo, hi) && Untouched(m, StoreByte(m, pd, a, b), pd, taken)
  {
    hide Sound, ClearFree, NoneAbove, Translate, SetByte, SameMap, Injective, DataFrame;
    var f, i := Translate(m, pd, a / 0x1000), a / 4 % 1024;
    if f.Some? && f.value < MAX_FRAMES {
      var x := SetByte(m[f.value][i], a % 4, b);
      StoreThenLoad(m, pd, taken, lo, hi, a / 0x1000, i, x, a / 0x1000, i);
      SameMapPrefix(m, Put(m, f.value, i, x), pd, hi);
      assert DataFrame(m, pd, taken, f.value);
      PutElsewhere(m, f.value, i, x);
    } else {
      SameMapSelf(m, pd);
    }
  }

  lemma PutElsewhere(m: Memory, f: nat, i: nat, x: Word)
    requires f < MAX_FRAMES && i < 1024
    ensures forall g: nat :: g < MAX_FRAMES && g != f ==> Put(m, f, i, x)[g] == m[g]
  {
  }

  lemma SameMapSelf(m: Memory, pd: nat)
    requires pd < MAX_FRAMES
    ensures SameMap(m, m, pd)
  {
  }

  /** Memory after a store of the bytes `bs` from address `a` on. */
  function StoreBytes(m: Memory, pd: nat, a: nat, bs: seq<u8>): Memory
    requires pd < MAX_FRAMES
  {
    if bs == [] then m
    else
      var n := |bs| - 1;
      StoreByte(StoreBytes(m, pd, a, bs[..n]), pd, (a + n) % MEMORY, bs[n])
  }

  /** The bytes [a, a + n) lie on the pages [lo, hi). */
  predicate OnPages(a: nat, n: nat, lo: nat, hi: nat) { lo <= a / 0x1000 && a + n <= hi * 0x1000 && hi < PAGES }

  lemma OnPagesAt(a: nat, n: nat, lo: nat, hi: nat, c: nat)
    requires OnPages(a, n, lo, hi) && a <= c < a + n
    ensures lo <= c / 0x1000 < hi && c < MEMORY
  {
  }

  lemma {:induction false} StoreBytesTidy(m: Memory, pd: nat, taken: set<nat>, lo: nat, hi: nat, a: nat, bs: seq<u8>)
    requires pd < MAX_FRAMES && OnPages(a, |bs|, lo, hi) && Tidy(m, pd, taken, lo, hi)
    ensures Tidy(StoreBytes(m, pd, a, bs), pd, taken, lo, hi) && Untouched(m, StoreBytes(m, pd, a, bs), pd, taken)
    decreases |bs|
  {
    hide Tidy, Untouched, StoreByte;
    if bs == [] {
      UntouchedSelf(m, pd, taken);
    } else {
      var n := |bs| - 1;
      StoreBytesTidy(m, pd, taken, lo, hi, a, bs[..n]);
      var k := StoreBytes(m, pd, a, bs[..n]);
      OnPagesAt(a, |bs|, lo, hi, a + n);
      StoreByteTidy(k, pd, taken, lo, hi, a + n, bs[n]);
      UntouchedTwice(m, k, StoreByte(k, pd, a + n, bs[n]), pd, taken);
    }
  }

  /** The bytes stored are read back where they are mapped, and no other byte of the data pages changes. */
  lemma {:induction false} StoreBytesRead(m: Memory, pd: nat, taken: set<nat>, lo: nat, hi: nat, a: nat, bs: seq<u8>, c: nat)
    requires pd < MAX_FRAMES && OnPages(a, |bs|, lo, hi) && c < MEMORY && lo <= c / 0x1000 < hi && Tidy(m, pd, taken, lo, hi)
    ensures LoadByte(StoreBytes(m, pd, a, bs), pd, c) ==
            if a <= c < a + |bs| && LoadByte(m, pd, c).Some? then Some(bs[c - a]) else LoadByte(m, pd, c)
    decreases |bs|
  {
    hide Tidy, Untouched, StoreByte, LoadByte;
    if bs != [] {
      var n := |bs| - 1;
      StoreBytesTidy(m, pd, taken, lo, hi, a, bs[..n]);
      StoreBytesRead(m, pd, taken, lo, hi, a, bs[..n], c);
      var k := StoreBytes(m, pd, a, bs[..n]);
      OnPagesAt(a, |bs|, lo, hi, a + n);
      StoreByteReads(k, pd, taken, lo, hi, a + n, bs[n], c);
      StoreBytesRead(m, pd, taken, lo, hi, a, bs[..n], a + n);
    }
  }

  /** The bytes [a, a + n) are mapped. */
  ghost predicate Backed(m: Memory, pd: nat, a: nat, n: nat)
    requires pd < MAX_FRAMES && a + n <= MEMORY
  {
    forall c: nat :: a <= c < a + n ==> LoadByte(m, pd, c).Some?
  }

  /** Every byte of the store is mapped when its turn comes, so that the store does not fault. */
  ghost predicate Reaches(m: Memory, pd: nat, a: nat, bs: seq<u8>)
    requires pd < MAX_FRAMES
  {
    forall i: nat :: i < |bs| ==> ReachesAt(m, pd, a, bs, i)
  }

  ghost predicate ReachesAt(m: Memory, pd: nat, a: nat, bs: seq<u8>, i: nat)
    requires pd < MAX_FRAMES && i <= |bs|
  {
    Translate(StoreBytes(m, pd, a, bs[..i]), pd, (a + i) % MEMORY / 0x1000).Some?
  }

  /** On the data pages a store goes through exactly when all its bytes are mapped beforehand. */
  lemma ReachesIff(m: Memory, pd: nat, taken: set<nat>, lo: nat, hi: nat, a: nat, bs: seq<u8>)
    requires pd < MAX_FRAMES && OnPages(a, |bs|, lo, hi) && Tidy(m, pd, taken, lo, hi)
    ensures a + |bs| <= MEMORY && (Reaches(m, pd, a, bs) <==> Backed(m, pd, a, |bs|))
  {
    hide Tidy, LoadByte, ReachesAt;
    if Reaches(m, pd, a, bs) {
      forall c: nat | a <= c < a + |bs| ensures LoadByte(m, pd, c).Some? {
        ReachesByte(m, pd, taken, lo, hi, a, bs, c - a);
      }
    }
    if Backed(m, pd, a, |bs|) {
      forall i: nat | i < |bs| ensures ReachesAt(m, pd, a, bs, i) {
        ReachesByte(m, pd, taken, lo, hi, a, bs, i);
      }
    }
  }

  lemma ReachesByte(m: Memory, pd: nat, taken: set<nat>, lo: nat, hi: nat, a: nat, bs: seq<u8>, i: nat)
    requires pd < MAX_FRAMES && OnPages(a, |bs|, lo, hi) && Tidy(m, pd, taken, lo, hi) && i < |bs|
    ensures a + i < MEMORY
    ensures ReachesAt(m, pd, a, bs, i) <==> LoadByte(m, pd, a + i).Some?
  {
    hide Tidy, StoreBytes, Translate, OnPages;
    OnPagesAt(a, |bs|, lo, hi, a + i);
    OnPagesLess(a, |bs|, lo, hi, i);
    StoreBytesTidy(m, pd, taken, lo, hi, a, bs[..i]);
    if Translate(m, pd, (a + i) / 0x1000).Some? {
      FrameNumber(m, pd, (a + i) / 0x1000);
    }
  }

  lemma OnPagesLess(a: nat, n: nat, lo: nat, hi: nat, i: nat)
    requires OnPages(a, n, lo, hi) && i <= n
    ensures OnPages(a, i, lo, hi)
  {
  }

  lemma FrameNumber(m: Memory, pd: nat, pg: nat)
    requires pd < MAX_FRAMES && pg < PAGES && Translate(m, pd, pg).Some?
    ensures Translate(m, pd, pg).value < MAX_FRAMES
  {
  }

  /** Growing the kernel area keeps every byte that was mapped on the data pages. */
  lemma GrowthKeepsByte(s: Start, m: Memory, lo: nat, hi: nat, held: set<nat>, free: int, tables: set<nat>, a: nat, b: nat, c: nat)
    requires s.pd < MAX_FRAMES && lo <= hi <= PAGES && a <= c / 0x1000 < b < PAGES && c < MEMORY
    requires Tidy(s.phys, s.pd, s.taken, a, b) && IsTop(s.phys, s.pd, lo) && FIRST_PAGE <= a && (lo == hi || lo < LAST_PAGE)
    requires Grown(s, m, lo, hi, held, free, tables) && LoadByte(s.phys, s.pd, c).Some?
    ensures LoadByte(m, s.pd, c) == LoadByte(s.phys, s.pd, c)
  {
    hide Sound, ClearFree, Translate, OwnFrames, FramesOf, TablesFrom, Injective, MappedTo, WordByte;
    var pg := c / 0x1000;
    var f := Translate(s.phys, s.pd, pg);
    MappedBelowTop(s.phys, s.pd, lo, pg, b);
    assert Translate(m, s.pd, pg) == f;
    assert DataFrame(s.phys, s.pd, s.taken, f.value);
    assert m[f.value] == s.phys[f.value];
  }

  lemma MappedBelowTop(m: Memory, pd: nat, top: nat, pg: nat, last: nat)
    requires pd < MAX_FRAMES && IsTop(m, pd, top) && FIRST_PAGE <= pg <= last < PAGES && NoneAbove(m, pd, last)
    requires Translate(m, pd, pg).Some?
    ensures pg < top || top == LAST_PAGE
  {
    hide Translate;
  }

  /** Growing keeps the kernel area a mapped prefix. */
  lemma GrowthKeepsPrefix(s: Start, m: Memory, lo: nat, hi: nat, held: set<nat>, free: int, tables: set<nat>, last: nat)
    requires s.pd < MAX_FRAMES && lo <= hi <= PAGES && last < PAGES
    requires NoneAbove(s.phys, s.pd, last) && IsTop(s.phys, s.pd, lo) && (lo == hi || lo < LAST_PAGE)
    requires Grown(s, m, lo, hi, held, free, tables) && KeptOutside(s.phys, m, s.pd, lo, hi)
    ensures NoneAbove(m, s.pd, last)
  {
    GrownMaps(s, m, lo, hi, held, free, tables);
    hide Grown;
    hide Translate;
    forall pg, q | FIRST_PAGE <= pg <= q <= last && Translate(m, s.pd, pg).None? ensures Translate(m, s.pd, q).None? {
      assert pg >= hi;
      assert Translate(s.phys, s.pd, pg) == Translate(m, s.pd, pg) && Translate(s.phys, s.pd, q) == Translate(m, s.pd, q);
    }
  }
}
