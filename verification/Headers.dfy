/**
 Block headers as bytes in memory: the struct mblock of include/kernel/mm.h, stored through the page map. The stores
 of malloc are shown to leave the headers of the new block list in memory, and every byte in use as it was.
 */
module Headers {
  import opened Machine
  import opened Heap
  import opened Access
  import Frames
  import Paging

  /** The bytes of a word, the low one first. */
  function Bytes(x: u32): (b: seq<u8>)
    ensures |b| == 4
  {
    [x % 256, x / 256 % 256, x / 65536 % 256, x / 16777216]
  }

  /** A header in memory: magic, hole, size, addr, next. */
  function HeaderBytes(b: MBlock): (r: seq<u8>)
    ensures |r| == 20
  {
    var w := HeaderWords(b);
    Bytes(w[0]) + Bytes(w[1]) + Bytes(w[2]) + Bytes(w[3]) + Bytes(w[4])
  }

  /** Storing the link alone changes the last four bytes. */
  lemma LinkBytes(b: MBlock, x: u32)
    ensures HeaderBytes(b.(next := x)) == HeaderBytes(b)[..16] + Bytes(x)
  {
    hide Bytes;
  }

  /** Words lie in memory low byte first. */
  lemma BytesAre(x: u32, a: u8, b: u8, c: u8, d: u8)
    requires x == a as int + 0x100 * b as int + 0x1_0000 * c as int + 0x100_0000 * d as int
    ensures Bytes(x) == [a, b, c, d]
  {
    assert x / 0x100 == b as int + 0x100 * c as int + 0x1_0000 * d as int;
    assert x / 0x1_0000 == c as int + 0x100 * d as int;
  }

  /** A header as it lies in memory: the block of 12 bytes at 0xC0100035, with the next one at 0xC0100041. */
  lemma HeaderExample()
    ensures HeaderBytes(MBlock(false, 12, 0xC010_0035, 0xC010_0041)) ==
            [0x30, 0x3F, 0x28, 0xF4, 0, 0, 0, 0, 12, 0, 0, 0, 0x35, 0x00, 0x10, 0xC0, 0x41, 0x00, 0x10, 0xC0]
    ensures HeaderBytes(MBlock(true, 0, 0, 0))[4..8] == [1, 0, 0, 0]
  {
    hide Bytes;
    BytesAre(MBLOCK_MAGIC, 0x30, 0x3F, 0x28, 0xF4);
    BytesAre(0, 0, 0, 0, 0);
    BytesAre(1, 1, 0, 0, 0);
    BytesAre(12, 12, 0, 0, 0);
    BytesAre(0xC010_0035, 0x35, 0x00, 0x10, 0xC0);
    BytesAre(0xC010_0041, 0x41, 0x00, 0x10, 0xC0);
  }

  /** The word with these bytes. */
  function Word(b: seq<u8>): u32
    requires |b| == 4
  {
    var x: int, y: int, z: int, w: int := b[0], b[1], b[2], b[3];
    x + 256 * y + 65536 * z + 16777216 * w
  }

  lemma WordOfBytes(x: u32)
    ensures Word(Bytes(x)) == x
  {
    assert x / 256 / 256 == x / 65536 && x / 65536 / 256 == x / 16777216;
  }

  /** The word a program reads at `a`; None where a byte of it is not mapped. */
  function LoadWord(m: Paging.Memory, pd: nat, a: nat): Option<u32>
    requires pd < Frames.MAX_FRAMES && a + 4 <= 0x1_0000_0000
  {
    var x, y, z, w := LoadByte(m, pd, a), LoadByte(m, pd, a + 1), LoadByte(m, pd, a + 2), LoadByte(m, pd, a + 3);
    if x.None? || y.None? || z.None? || w.None? then None else Some(Word([x.value, y.value, z.value, w.value]))
  }

  /** The header that the code reads at `a`; None where it faults, or panics over the magic number. */
  function LoadHeader(m: Paging.Memory, pd: nat, a: nat): Option<MBlock>
    requires pd < Frames.MAX_FRAMES && a + 20 <= 0x1_0000_0000
  {
    var magic, hole, size := LoadWord(m, pd, a), LoadWord(m, pd, a + 4), LoadWord(m, pd, a + 8);
    var addr, next := LoadWord(m, pd, a + 12), LoadWord(m, pd, a + 16);
    if magic != Some(MBLOCK_MAGIC) || hole.None? || size.None? || addr.None? || next.None? then None
    else Some(MBlock(hole.value != 0, size.value, addr.value, next.value))
  }

  /** Word `i` of a header in memory is word `i` of the struct. */
  lemma HeaderWordAt(m: Paging.Memory, pd: nat, a: nat, b: MBlock, i: nat)
    requires pd < Frames.MAX_FRAMES && a + 20 <= 0x1_0000_0000 && HeaderAt(m, pd, a, b) && i < 5
    ensures LoadWord(m, pd, a + 4 * i) == Some(HeaderWords(b)[i])
  {
    hide LoadByte, Bytes, Word;
    var x, bytes := HeaderWords(b)[i], HeaderBytes(b);
    assert bytes[4 * i..4 * i + 4] == Bytes(x);
    assert bytes[4 * i] == Bytes(x)[0] && bytes[4 * i + 1] == Bytes(x)[1];
    assert bytes[4 * i + 2] == Bytes(x)[2] && bytes[4 * i + 3] == Bytes(x)[3];
    assert LoadByte(m, pd, a + 4 * i) == Some(Bytes(x)[0]) && LoadByte(m, pd, a + 4 * i + 1) == Some(Bytes(x)[1]);
    assert LoadByte(m, pd, a + 4 * i + 2) == Some(Bytes(x)[2]) && LoadByte(m, pd, a + 4 * i + 3) == Some(Bytes(x)[3]);
    assert [Bytes(x)[0], Bytes(x)[1], Bytes(x)[2], Bytes(x)[3]] == Bytes(x);
    WordOfBytes(x);
  }

  /** Reading a header undoes storing it. */
  lemma HeaderReads(m: Paging.Memory, pd: nat, a: nat, b: MBlock)
    requires pd < Frames.MAX_FRAMES && a + 20 <= 0x1_0000_0000 && HeaderAt(m, pd, a, b)
    ensures LoadHeader(m, pd, a) == Some(b)
  {
    hide LoadWord, HeaderAt;
    HeaderWordAt(m, pd, a, b, 0);
    HeaderWordAt(m, pd, a, b, 1);
    HeaderWordAt(m, pd, a, b, 2);
    HeaderWordAt(m, pd, a, b, 3);
    HeaderWordAt(m, pd, a, b, 4);
  }

  /** Memory holds header `b` at address `a`. */
  ghost predicate HeaderAt(m: Paging.Memory, pd: nat, a: nat, b: MBlock)
    requires pd < Frames.MAX_FRAMES && a + 20 <= 0x1_0000_0000
  {
    forall c: nat :: a <= c < a + 20 ==> LoadByte(m, pd, c) == Some(HeaderBytes(b)[c - a])
  }

  /** Memory holds the headers of the list. */
  ghost predicate Stored(m: Paging.Memory, pd: nat, mem: map<u32, MBlock>, bs: seq<Block>)
    requires pd < Frames.MAX_FRAMES
  {
    forall i :: 0 <= i < |bs| ==> StoredAt(m, pd, mem, bs[i].at)
  }

  ghost predicate StoredAt(m: Paging.Memory, pd: nat, mem: map<u32, MBlock>, a: nat)
    requires pd < Frames.MAX_FRAMES
  {
    a in mem && a + 20 <= 0x1_0000_0000 && HeaderAt(m, pd, a, mem[a])
  }

  /** What is mapped of the bytes [a, a + n) in `m` is the same in `n`. */
  ghost predicate BytesKept(m: Paging.Memory, n: Paging.Memory, pd: nat, a: nat, len: nat)
    requires pd < Frames.MAX_FRAMES && a + len <= 0x1_0000_0000
  {
    forall c: nat :: a <= c < a + len && LoadByte(m, pd, c).Some? ==> LoadByte(n, pd, c) == LoadByte(m, pd, c)
  }

  /** Every byte of a payload in use that was mapped is as it was. */
  ghost predicate LiveKept(m: Paging.Memory, n: Paging.Memory, pd: nat, bs: seq<Block>)
    requires pd < Frames.MAX_FRAMES
  {
    forall i :: 0 <= i < |bs| && !bs[i].hole && bs[i].End() <= 0x1_0000_0000 ==> BytesKept(m, n, pd, bs[i].Payload(), bs[i].size)
  }

  /** The heap's bytes on the pages [lo, hi) that were mapped are as they were. */
  ghost predicate PagesKept(m: Paging.Memory, n: Paging.Memory, pd: nat, lo: nat, hi: nat)
    requires pd < Frames.MAX_FRAMES && hi < Paging.PAGES
  {
    forall c: nat :: c < 0x1_0000_0000 && lo <= c / 0x1000 < hi && LoadByte(m, pd, c).Some? ==> LoadByte(n, pd, c) == LoadByte(m, pd, c)
  }

  lemma LiveKeptTwice(a: Paging.Memory, b: Paging.Memory, c: Paging.Memory, pd: nat, bs: seq<Block>)
    requires pd < Frames.MAX_FRAMES && LiveKept(a, b, pd, bs) && LiveKept(b, c, pd, bs)
    ensures LiveKept(a, c, pd, bs)
  {
    forall i | 0 <= i < |bs| && !bs[i].hole && bs[i].End() <= 0x1_0000_0000
      ensures BytesKept(a, c, pd, bs[i].Payload(), bs[i].size)
    {
      assert BytesKept(a, b, pd, bs[i].Payload(), bs[i].size) && BytesKept(b, c, pd, bs[i].Payload(), bs[i].size);
    }
  }

  lemma LiveKeptSelf(m: Paging.Memory, pd: nat, bs: seq<Block>)
    requires pd < Frames.MAX_FRAMES
    ensures LiveKept(m, m, pd, bs)
  {
  }

  /** What is kept of all payloads in use is kept of fewer. */
  lemma LiveKeptLess(m: Paging.Memory, n: Paging.Memory, pd: nat, bs: seq<Block>, cs: seq<Block>)
    requires pd < Frames.MAX_FRAMES && Live(bs) <= Live(cs) && LiveKept(m, n, pd, cs)
    ensures LiveKept(m, n, pd, bs)
  {
    hide BytesKept;
    forall i | 0 <= i < |bs| && !bs[i].hole && bs[i].End() <= 0x1_0000_0000
      ensures BytesKept(m, n, pd, bs[i].Payload(), bs[i].size)
    {
      assert (bs[i].Payload(), bs[i].size) in Live(cs);
      var j :| 0 <= j < |cs| && !cs[j].hole && (bs[i].Payload(), bs[i].size) == (cs[j].Payload(), cs[j].size);
    }
  }

  // ----------------------------------------------------------------- one store

  /** A store leaves bytes apart from it alone. */
  lemma StoreSpares(m: Paging.Memory, pd: nat, taken: set<nat>, lo: nat, hi: nat, a: nat, bytes: seq<u8>, c: nat, len: nat)
    requires pd < Frames.MAX_FRAMES && OnPages(a, |bytes|, lo, hi) && OnPages(c, len, lo, hi) && Tidy(m, pd, taken, lo, hi)
    requires Disjoint(a, |bytes|, c, len)
    ensures c + len <= 0x1_0000_0000 && BytesKept(m, StoreBytes(m, pd, a, bytes), pd, c, len)
  {
    hide Tidy, StoreBytes, LoadByte, OnPages;
    OnPagesEnd(c, len, lo, hi);
    forall x: nat | c <= x < c + len ensures LoadByte(StoreBytes(m, pd, a, bytes), pd, x) == LoadByte(m, pd, x) {
      OnPagesAt(c, len, lo, hi, x);
      StoreBytesRead(m, pd, taken, lo, hi, a, bytes, x);
    }
  }

  lemma OnPagesEnd(a: nat, n: nat, lo: nat, hi: nat)
    requires OnPages(a, n, lo, hi)
    ensures a + n <= 0x1_0000_0000
  {
  }

  lemma HeaderSpared(m: Paging.Memory, n: Paging.Memory, pd: nat, a: nat, b: MBlock)
    requires pd < Frames.MAX_FRAMES && a + 20 <= 0x1_0000_0000 && HeaderAt(m, pd, a, b) && BytesKept(m, n, pd, a, 20)
    ensures HeaderAt(n, pd, a, b)
  {
    hide LoadByte, HeaderBytes;
  }

  lemma HeaderBacked(m: Paging.Memory, pd: nat, a: nat, b: MBlock)
    requires pd < Frames.MAX_FRAMES && a + 20 <= 0x1_0000_0000 && HeaderAt(m, pd, a, b)
    ensures Backed(m, pd, a, 20)
  {
    hide LoadByte, HeaderBytes;
  }

  /** A header stored where memory is mapped is there. */
  lemma StoreHeader(m: Paging.Memory, pd: nat, taken: set<nat>, lo: nat, hi: nat, a: nat, b: MBlock)
    requires pd < Frames.MAX_FRAMES && OnPages(a, 20, lo, hi) && Tidy(m, pd, taken, lo, hi)
    requires a + 20 <= 0x1_0000_0000 && Backed(m, pd, a, 20)
    ensures HeaderAt(StoreBytes(m, pd, a, HeaderBytes(b)), pd, a, b)
  {
    hide Tidy, StoreBytes, LoadByte, HeaderBytes, OnPages;
    forall c: nat | a <= c < a + 20 ensures LoadByte(StoreBytes(m, pd, a, HeaderBytes(b)), pd, c) == Some(HeaderBytes(b)[c - a]) {
      OnPagesAt(a, 20, lo, hi, c);
      StoreBytesRead(m, pd, taken, lo, hi, a, HeaderBytes(b), c);
    }
  }

  /** A link stored into a header that memory holds changes the link. */
  lemma StoreLink(m: Paging.Memory, pd: nat, taken: set<nat>, lo: nat, hi: nat, a: nat, b: MBlock, x: u32)
    requires pd < Frames.MAX_FRAMES && OnPages(a, 20, lo, hi) && Tidy(m, pd, taken, lo, hi)
    requires a + 20 <= 0x1_0000_0000 && HeaderAt(m, pd, a, b)
    ensures HeaderAt(StoreBytes(m, pd, a + 16, Bytes(x)), pd, a, b.(next := x))
  {
    hide Tidy, StoreBytes, LoadByte, HeaderBytes, Bytes;
    LinkBytes(b, x);
    var n, header := StoreBytes(m, pd, a + 16, Bytes(x)), HeaderBytes(b.(next := x));
    forall c: nat | a <= c < a + 20 ensures LoadByte(n, pd, c) == Some(header[c - a]) {
      OnPagesAt(a, 20, lo, hi, c);
      StoreBytesRead(m, pd, taken, lo, hi, a + 16, Bytes(x), c);
    }
  }

  /** After mm has stored the root header where memory is mapped, memory holds the list of that one block. */
  lemma RootStored(m: Paging.Memory, pd: nat, taken: set<nat>, lim: nat, start: u32, b: MBlock)
    requires pd < Frames.MAX_FRAMES && OnPages(start, 20, start / 0x1000, lim) && Tidy(m, pd, taken, start / 0x1000, lim)
    requires start + 20 <= 0x1_0000_0000 && Backed(m, pd, start, 20)
    ensures var n := StoreBytes(m, pd, start, HeaderBytes(b));
            && Tidy(n, pd, taken, start / 0x1000, lim) && Untouched(m, n, pd, taken)
            && Stored(n, pd, map[start := b], [Block(start, b.hole, b.size)])
  {
    hide Tidy, Untouched, StoreBytes, HeaderBytes, HeaderAt, Backed, OnPages;
    StoreBytesTidy(m, pd, taken, start / 0x1000, lim, start, HeaderBytes(b));
    StoreHeader(m, pd, taken, start / 0x1000, lim, start, b);
    assert StoredAt(StoreBytes(m, pd, start, HeaderBytes(b)), pd, map[start := b], start);
  }

  // -------------------------------------------------------------------- an append

  /** The header at malloc_top, and the link in the last one. */
  function AppendStores(m: Paging.Memory, pd: nat, s: State, size: u32): Paging.Memory
    requires pd < Frames.MAX_FRAMES && s.top + 20 < 0x1_0000_0000
  {
    StoreBytes(StoreBytes(m, pd, s.top, HeaderBytes(MBlock(false, size, s.top + 20, 0))), pd, s.last + 16, Bytes(s.top))
  }

  /** Both stores of an append go through. */
  ghost predicate AppendReaches(m: Paging.Memory, pd: nat, s: State, size: u32)
    requires pd < Frames.MAX_FRAMES && s.top + 20 < 0x1_0000_0000
  {
    var header := HeaderBytes(MBlock(false, size, s.top + 20, 0));
    Reaches(m, pd, s.top, header) && Reaches(StoreBytes(m, pd, s.top, header), pd, s.last + 16, Bytes(s.top))
  }

  /** An append goes through exactly when the place of its header is mapped. */
  lemma AppendReachesIff(m: Paging.Memory, pd: nat, taken: set<nat>, lim: nat, s: State, bs: seq<Block>, size: u32)
    requires Lists(s, bs) && s.top + 20 <= lim * 0x1000 && lim < Paging.PAGES && pd < Frames.MAX_FRAMES
    requires Tidy(m, pd, taken, s.root / 0x1000, lim) && Stored(m, pd, s.mem, bs)
    ensures s.top + 20 < 0x1_0000_0000 && (AppendReaches(m, pd, s, size) <==> Backed(m, pd, s.top, 20))
  {
    hide Tidy, StoreBytes, HeaderBytes, Bytes, Lists, Reaches, Backed, Untouched, HeaderAt, OnPages;
    var header, lo := HeaderBytes(MBlock(false, size, s.top + 20, 0)), s.root / 0x1000;
    var k := StoreBytes(m, pd, s.top, header);
    LastBlock(s, bs);
    BlocksOnPages(s, bs, lim, |bs| - 1);
    TopInside(s, lim);
    ReachesIff(m, pd, taken, lo, lim, s.top, header);
    StoreBytesTidy(m, pd, taken, lo, lim, s.top, header);
    assert StoredAt(m, pd, s.mem, bs[|bs| - 1].at);
    HeaderBacked(m, pd, s.last, s.mem[s.last]);
    BackedLink(m, k, pd, taken, s.last);
    LinkOnPages(s.last, lo, lim);
    ReachesIff(k, pd, taken, lo, lim, s.last + 16, Bytes(s.top));
  }

  lemma TopInside(s: State, lim: nat)
    requires s.top + 20 <= lim * 0x1000 && lim < Paging.PAGES
    ensures s.top + 20 < 0x1_0000_0000
  {
  }

  lemma LinkOnPages(a: nat, lo: nat, hi: nat)
    requires OnPages(a, 20, lo, hi)
    ensures OnPages(a + 16, 4, lo, hi)
  {
  }

  lemma BackedLink(m: Paging.Memory, n: Paging.Memory, pd: nat, taken: set<nat>, a: nat)
    requires pd < Frames.MAX_FRAMES && a + 20 <= 0x1_0000_0000 && Backed(m, pd, a, 20) && Untouched(m, n, pd, taken)
    ensures Backed(n, pd, a + 16, 4)
  {
    hide LoadByte;
    forall c: nat | a + 16 <= c < a + 20 ensures LoadByte(n, pd, c).Some? {
      SameMapLoads(m, n, pd, taken, c);
    }
  }

  lemma SameMapLoads(m: Paging.Memory, n: Paging.Memory, pd: nat, taken: set<nat>, c: nat)
    requires pd < Frames.MAX_FRAMES && c < 0x1_0000_0000 && Untouched(m, n, pd, taken)
    ensures LoadByte(n, pd, c).Some? <==> LoadByte(m, pd, c).Some?
  {
    hide Paging.Translate;
  }

  /** Where the blocks of a list lie among the heap's pages. */
  lemma BlocksOnPages(s: State, bs: seq<Block>, lim: nat, i: nat)
    requires Lists(s, bs) && s.top + 20 <= lim * 0x1000 && lim < Paging.PAGES && i < |bs|
    ensures OnPages(bs[i].at, 20, s.root / 0x1000, lim) && OnPages(bs[i].Payload(), bs[i].size, s.root / 0x1000, lim)
    ensures OnPages(s.top, 20, s.root / 0x1000, lim) && bs[i].End() <= s.top < 0x1_0000_0000
  {
    Bounds(bs, s.root, s.top, i);
  }

  lemma AppendTidy(m: Paging.Memory, pd: nat, taken: set<nat>, lim: nat, s: State, bs: seq<Block>, size: u32)
    requires Lists(s, bs) && s.top + 20 <= lim * 0x1000 && lim < Paging.PAGES && pd < Frames.MAX_FRAMES
    requires Tidy(m, pd, taken, s.root / 0x1000, lim)
    ensures Tidy(AppendStores(m, pd, s, size), pd, taken, s.root / 0x1000, lim) && Untouched(m, AppendStores(m, pd, s, size), pd, taken)
  {
    hide Tidy, Untouched, StoreBytes, HeaderBytes, Bytes, Lists;
    var bytes := HeaderBytes(MBlock(false, size, s.top + 20, 0));
    var k := StoreBytes(m, pd, s.top, bytes);
    LastBlock(s, bs);
    BlocksOnPages(s, bs, lim, |bs| - 1);
    StoreBytesTidy(m, pd, taken, s.root / 0x1000, lim, s.top, bytes);
    StoreBytesTidy(k, pd, taken, s.root / 0x1000, lim, s.last + 16, Bytes(s.top));
    UntouchedTwice(m, k, AppendStores(m, pd, s, size), pd, taken);
  }

  lemma LastBlock(s: State, bs: seq<Block>)
    requires Lists(s, bs)
    ensures |bs| > 0 && s.last == bs[|bs| - 1].at && s.last in s.mem && s.last + 20 <= s.top
  {
    assert Linked(s.mem, bs, |bs| - 1);
    Bounds(bs, s.root, s.top, |bs| - 1);
  }

  lemma AppendLive(m: Paging.Memory, pd: nat, taken: set<nat>, lim: nat, s: State, bs: seq<Block>, size: u32)
    requires Lists(s, bs) && s.top + 20 <= lim * 0x1000 && lim < Paging.PAGES && pd < Frames.MAX_FRAMES
    requires Tidy(m, pd, taken, s.root / 0x1000, lim)
    ensures LiveKept(m, AppendStores(m, pd, s, size), pd, bs)
  {
    hide Tidy, StoreBytes, HeaderBytes, Bytes, Lists, BytesKept, OnPages;
    forall i | 0 <= i < |bs| && !bs[i].hole && bs[i].End() <= 0x1_0000_0000
      ensures BytesKept(m, AppendStores(m, pd, s, size), pd, bs[i].Payload(), bs[i].size)
    {
      LastApart(s, bs, i);
      BlocksOnPages(s, bs, lim, i);
      AppendSpares(m, pd, taken, lim, s, bs, size, bs[i].Payload(), bs[i].size);
    }
  }

  lemma LastApart(s: State, bs: seq<Block>, i: nat)
    requires Lists(s, bs) && i < |bs|
    ensures bs[i].End() <= s.top && (i < |bs| - 1 ==> bs[i].End() <= s.last) && s.last == bs[|bs| - 1].at
  {
    Bounds(bs, s.root, s.top, i);
    if i < |bs| - 1 {
      InOrder(bs, s.root, s.top, i, |bs| - 1);
    }
  }

  /** Bytes below malloc_top that are not in the last header's link stay as they are. */
  lemma AppendSpares(m: Paging.Memory, pd: nat, taken: set<nat>, lim: nat, s: State, bs: seq<Block>, size: u32, c: nat, len: nat)
    requires Lists(s, bs) && s.top + 20 <= lim * 0x1000 && lim < Paging.PAGES && pd < Frames.MAX_FRAMES
    requires Tidy(m, pd, taken, s.root / 0x1000, lim) && OnPages(c, len, s.root / 0x1000, lim) && c + len <= s.top
    requires Disjoint(s.last + 16, 4, c, len)
    ensures c + len <= 0x1_0000_0000 && BytesKept(m, AppendStores(m, pd, s, size), pd, c, len)
  {
    hide Tidy, StoreBytes, HeaderBytes, Bytes, Lists, LoadByte;
    var bytes := HeaderBytes(MBlock(false, size, s.top + 20, 0));
    var k := StoreBytes(m, pd, s.top, bytes);
    LastBlock(s, bs);
    BlocksOnPages(s, bs, lim, |bs| - 1);
    StoreBytesTidy(m, pd, taken, s.root / 0x1000, lim, s.top, bytes);
    StoreSpares(m, pd, taken, s.root / 0x1000, lim, s.top, bytes, c, len);
    StoreSpares(k, pd, taken, s.root / 0x1000, lim, s.last + 16, Bytes(s.top), c, len);
  }

  /** If memory holds the list and the new header's place is mapped, memory holds the list with the block appended. */
  lemma AppendStored(m: Paging.Memory, pd: nat, taken: set<nat>, lim: nat, s: State, bs: seq<Block>, size: u32)
    requires Lists(s, bs) && s.top + 20 + size < 0x1_0000_0000 && s.top + 20 <= lim * 0x1000 && lim < Paging.PAGES
    requires pd < Frames.MAX_FRAMES && Tidy(m, pd, taken, s.root / 0x1000, lim)
    requires Stored(m, pd, s.mem, bs) && Backed(m, pd, s.top, 20)
    ensures s.last in s.mem
    ensures Stored(AppendStores(m, pd, s, size), pd, AppendState(s, size).mem, bs + [Block(s.top, false, size)])
  {
    hide Tidy, StoreBytes, HeaderBytes, Bytes, Lists, HeaderAt, Backed, OnPages, AppendStores;
    LastBlock(s, bs);
    var n, t, cs := AppendStores(m, pd, s, size), AppendState(s, size), bs + [Block(s.top, false, size)];
    forall i | 0 <= i < |cs| ensures StoredAt(n, pd, t.mem, cs[i].at) {
      if i == |bs| {
        AppendedHeader(m, pd, taken, lim, s, bs, size);
      } else if i == |bs| - 1 {
        assert StoredAt(m, pd, s.mem, bs[i].at);
        RelinkedHeader(m, pd, taken, lim, s, bs, size);
      } else {
        assert StoredAt(m, pd, s.mem, bs[i].at);
        LastApart(s, bs, i);
        BlocksOnPages(s, bs, lim, i);
        AppendSpares(m, pd, taken, lim, s, bs, size, bs[i].at, 20);
        HeaderSpared(m, n, pd, bs[i].at, s.mem[bs[i].at]);
      }
    }
  }

  lemma AppendedHeader(m: Paging.Memory, pd: nat, taken: set<nat>, lim: nat, s: State, bs: seq<Block>, size: u32)
    requires Lists(s, bs) && s.top + 20 <= lim * 0x1000 && lim < Paging.PAGES && pd < Frames.MAX_FRAMES
    requires Tidy(m, pd, taken, s.root / 0x1000, lim) && s.top + 20 < 0x1_0000_0000 && Backed(m, pd, s.top, 20)
    ensures HeaderAt(AppendStores(m, pd, s, size), pd, s.top, MBlock(false, size, s.top + 20, 0))
  {
    hide Tidy, StoreBytes, HeaderBytes, Bytes, Lists, HeaderAt, Backed, BytesKept;
    var b := MBlock(false, size, s.top + 20, 0);
    var k := StoreBytes(m, pd, s.top, HeaderBytes(b));
    LastBlock(s, bs);
    BlocksOnPages(s, bs, lim, |bs| - 1);
    StoreHeader(m, pd, taken, s.root / 0x1000, lim, s.top, b);
    StoreBytesTidy(m, pd, taken, s.root / 0x1000, lim, s.top, HeaderBytes(b));
    StoreSpares(k, pd, taken, s.root / 0x1000, lim, s.last + 16, Bytes(s.top), s.top, 20);
    HeaderSpared(k, AppendStores(m, pd, s, size), pd, s.top, b);
  }

  lemma RelinkedHeader(m: Paging.Memory, pd: nat, taken: set<nat>, lim: nat, s: State, bs: seq<Block>, size: u32)
    requires Lists(s, bs) && s.top + 20 <= lim * 0x1000 && lim < Paging.PAGES && pd < Frames.MAX_FRAMES
    requires Tidy(m, pd, taken, s.root / 0x1000, lim) && StoredAt(m, pd, s.mem, s.last) && s.top + 20 < 0x1_0000_0000
    ensures HeaderAt(AppendStores(m, pd, s, size), pd, s.last, s.mem[s.last].(next := s.top))
  {
    hide Tidy, StoreBytes, HeaderBytes, Bytes, Lists, HeaderAt, BytesKept;
    var b := MBlock(false, size, s.top + 20, 0);
    var k := StoreBytes(m, pd, s.top, HeaderBytes(b));
    LastBlock(s, bs);
    BlocksOnPages(s, bs, lim, |bs| - 1);
    StoreBytesTidy(m, pd, taken, s.root / 0x1000, lim, s.top, HeaderBytes(b));
    StoreSpares(m, pd, taken, s.root / 0x1000, lim, s.top, HeaderBytes(b), s.last, 20);
    HeaderSpared(m, k, pd, s.last, s.mem[s.last]);
    StoreLink(k, pd, taken, s.root / 0x1000, lim, s.last, s.mem[s.last], s.top);
  }

  /** The word at malloc_top, just behind the last block, becomes the magic number, and the one after it zero. */
  lemma MagicBehind(m: Paging.Memory, pd: nat, taken: set<nat>, lim: nat, s: State, bs: seq<Block>, size: u32, k: nat)
    requires Lists(s, bs) && s.top + 20 <= lim * 0x1000 && lim < Paging.PAGES && pd < Frames.MAX_FRAMES && k < 4
    requires Tidy(m, pd, taken, s.root / 0x1000, lim) && s.top + 20 < 0x1_0000_0000 && Backed(m, pd, s.top, 20)
    ensures LoadByte(AppendStores(m, pd, s, size), pd, s.top + k) == Some(Bytes(MBLOCK_MAGIC)[k])
    ensures LoadByte(AppendStores(m, pd, s, size), pd, s.top + 4 + k) == Some(0)
  {
    hide Tidy, Lists, AppendStores, LoadByte, Backed;
    AppendedHeader(m, pd, taken, lim, s, bs, size);
    var header := HeaderBytes(MBlock(false, size, s.top + 20, 0));
    assert header[k] == Bytes(MBLOCK_MAGIC)[k] && header[4 + k] == 0;
    assert s.top + k - s.top == k && s.top + 4 + k - s.top == 4 + k;
  }

  // ---------------------------------------------------------------------- a split

  /** The headers that _split_hole stores. */
  function SplitStores(m: Paging.Memory, pd: nat, mem: map<u32, MBlock>, b: u32, size: u32): Paging.Memory
    requires pd < Frames.MAX_FRAMES && b in mem
  {
    var h := mem[b];
    if !h.hole then m
    else if Sub32(h.size, Add32(size, 20)) < 20 then StoreBytes(m, pd, b, HeaderBytes(h.(hole := false)))
    else
      var at := Add32(h.addr, size);
      var hole := MBlock(true, Sub32(Sub32(h.size, 20), size), Add32(at, 20), h.next);
      StoreBytes(StoreBytes(m, pd, at, HeaderBytes(hole)), pd, b, HeaderBytes(MBlock(false, size, h.addr, at)))
  }

  /** The stores of a split go through. */
  ghost predicate SplitReaches(m: Paging.Memory, pd: nat, mem: map<u32, MBlock>, b: u32, size: u32)
    requires pd < Frames.MAX_FRAMES && b in mem
  {
    var h := mem[b];
    if !h.hole then true
    else if Sub32(h.size, Add32(size, 20)) < 20 then Reaches(m, pd, b, HeaderBytes(h.(hole := false)))
    else
      var at := Add32(h.addr, size);
      var hole := HeaderBytes(MBlock(true, Sub32(Sub32(h.size, 20), size), Add32(at, 20), h.next));
      Reaches(m, pd, at, hole)
      && Reaches(StoreBytes(m, pd, at, hole), pd, b, HeaderBytes(MBlock(false, size, h.addr, at)))
  }

  /** The remainder test of _split_hole says to cut the hole in two. */
  predicate Cuts(b: Block, size: u32)
    requires b.size < 0x1_0000_0000
  {
    Sub32(b.size, Add32(size, 20)) >= 20
  }

  /** A split goes through exactly when the hole is used whole, or the place of the second header is mapped. */
  lemma SplitReachesIff(m: Paging.Memory, pd: nat, taken: set<nat>, lim: nat, s: State, bs: seq<Block>, size: u32, k: nat)
    requires Lists(s, bs) && k < |bs| && bs[k].hole && bs[k].size >= size && s.top + 20 <= lim * 0x1000 && lim < Paging.PAGES
    requires pd < Frames.MAX_FRAMES && Tidy(m, pd, taken, s.root / 0x1000, lim) && Stored(m, pd, s.mem, bs)
    ensures bs[k].at in s.mem && bs[k].size < 0x1_0000_0000 && bs[k].at + 40 + size <= 0x1_0000_0000
    ensures SplitReaches(m, pd, s.mem, bs[k].at, size) <==> !Cuts(bs[k], size) || Backed(m, pd, bs[k].at + 20 + size, 20)
  {
    hide Tidy, StoreBytes, HeaderBytes, Lists, Reaches, Backed, Untouched, HeaderAt, OnPages, Sub32;
    SplitOnPages(s, bs, k, size, lim);
    HoleWords(s, bs, k);
    assert StoredAt(m, pd, s.mem, bs[k].at);
    var h, at, lo := s.mem[bs[k].at], bs[k].at + 20 + size, s.root / 0x1000;
    HeaderBacked(m, pd, bs[k].at, h);
    ReachesIff(m, pd, taken, lo, lim, bs[k].at, HeaderBytes(h.(hole := false)));
    var hole := HeaderBytes(MBlock(true, Sub32(Sub32(h.size, 20), size), Add32(at, 20), h.next));
    var n := StoreBytes(m, pd, at, hole);
    ReachesIff(m, pd, taken, lo, lim, at, hole);
    StoreBytesTidy(m, pd, taken, lo, lim, at, hole);
    BackedStill(m, n, pd, taken, bs[k].at);
    ReachesIff(n, pd, taken, lo, lim, bs[k].at, HeaderBytes(MBlock(false, size, h.addr, at)));
  }

  lemma HoleWords(s: State, bs: seq<Block>, k: nat)
    requires Lists(s, bs) && k < |bs|
    ensures bs[k].at in s.mem && s.mem[bs[k].at].hole == bs[k].hole && s.mem[bs[k].at].size == bs[k].size
  {
    assert Linked(s.mem, bs, k);
  }

  lemma BackedStill(m: Paging.Memory, n: Paging.Memory, pd: nat, taken: set<nat>, a: nat)
    requires pd < Frames.MAX_FRAMES && a + 20 <= 0x1_0000_0000 && Backed(m, pd, a, 20) && Untouched(m, n, pd, taken)
    ensures Backed(n, pd, a, 20)
  {
    hide LoadByte;
    forall c: nat | a <= c < a + 20 ensures LoadByte(n, pd, c).Some? {
      SameMapLoads(m, n, pd, taken, c);
    }
  }

  /** On a safe request the split goes through. */
  lemma SafeReaches(m: Paging.Memory, pd: nat, taken: set<nat>, lim: nat, s: State, bs: seq<Block>, size: u32, k: nat)
    requires Lists(s, bs) && Safe(bs, size) && k == FirstFit(bs, 0, size) < |bs|
    requires s.top + 20 <= lim * 0x1000 && lim < Paging.PAGES && 0xC000_0000 <= s.root
    requires pd < Frames.MAX_FRAMES && Tidy(m, pd, taken, s.root / 0x1000, lim) && Stored(m, pd, s.mem, bs)
    ensures bs[k].at in s.mem && SplitReaches(m, pd, s.mem, bs[k].at, size)
  {
    hide Tidy, Lists, Safe, FirstFit, SplitReaches, Backed, HeaderAt, Stored;
    SafeFacts(bs, s.top, size, k);
    SplitReachesIff(m, pd, taken, lim, s, bs, size, k);
    SplitWords(s, bs, size, k);
    if bs[k].size >= size + 40 {
      StoredThere(m, pd, s.mem, bs, k + 1);
      SplitRoom(m, pd, taken, lim, s, bs, size, k);
    }
  }

  lemma StoredThere(m: Paging.Memory, pd: nat, mem: map<u32, MBlock>, bs: seq<Block>, i: nat)
    requires pd < Frames.MAX_FRAMES && Stored(m, pd, mem, bs) && i < |bs|
    ensures StoredAt(m, pd, mem, bs[i].at)
  {
  }

  /** Where a split of hole `k` stores. */
  lemma SplitOnPages(s: State, bs: seq<Block>, k: nat, size: u32, lim: nat)
    requires Lists(s, bs) && k < |bs| && bs[k].size >= size && s.top + 20 <= lim * 0x1000 && lim < Paging.PAGES
    ensures bs[k].at in s.mem && Add32(s.mem[bs[k].at].addr, size) == bs[k].at + 20 + size
    ensures OnPages(bs[k].at, 20, s.root / 0x1000, lim) && OnPages(bs[k].at + 20 + size, 20, s.root / 0x1000, lim)
  {
    assert Linked(s.mem, bs, k);
    Bounds(bs, s.root, s.top, k);
  }

  /** Even an unsafe split leaves the map as it was. */
  lemma SplitTidy(m: Paging.Memory, pd: nat, taken: set<nat>, lim: nat, s: State, bs: seq<Block>, size: u32, k: nat)
    requires Lists(s, bs) && k < |bs| && bs[k].size >= size && s.top + 20 <= lim * 0x1000 && lim < Paging.PAGES
    requires pd < Frames.MAX_FRAMES && Tidy(m, pd, taken, s.root / 0x1000, lim)
    ensures bs[k].at in s.mem && var n := SplitStores(m, pd, s.mem, bs[k].at, size);
            Tidy(n, pd, taken, s.root / 0x1000, lim) && Untouched(m, n, pd, taken)
  {
    hide Tidy, Untouched, StoreBytes, HeaderBytes, Lists, OnPages;
    SplitOnPages(s, bs, k, size, lim);
    UntouchedSelf(m, pd, taken);
    var h, at, lo := s.mem[bs[k].at], bs[k].at + 20 + size, s.root / 0x1000;
    var hole := MBlock(true, Sub32(Sub32(h.size, 20), size), Add32(at, 20), h.next);
    var m' := StoreBytes(m, pd, at, HeaderBytes(hole));
    StoreBytesTidy(m, pd, taken, lo, lim, bs[k].at, HeaderBytes(h.(hole := false)));
    StoreBytesTidy(m, pd, taken, lo, lim, at, HeaderBytes(hole));
    StoreBytesTidy(m', pd, taken, lo, lim, bs[k].at, HeaderBytes(MBlock(false, size, h.addr, at)));
    UntouchedTwice(m, m', StoreBytes(m', pd, bs[k].at, HeaderBytes(MBlock(false, size, h.addr, at))), pd, taken);
  }

  /** Bytes outside hole `k`'s block stay as they are in a safe split. */
  lemma SplitSpares(m: Paging.Memory, pd: nat, taken: set<nat>, lim: nat, s: State, bs: seq<Block>, size: u32, k: nat, c: nat, len: nat)
    requires Lists(s, bs) && k < |bs| && bs[k].hole && bs[k].size >= size + 20 && s.top + 20 <= lim * 0x1000 && lim < Paging.PAGES
    requires pd < Frames.MAX_FRAMES && Tidy(m, pd, taken, s.root / 0x1000, lim) && OnPages(c, len, s.root / 0x1000, lim)
    requires Disjoint(bs[k].at, 20 + bs[k].size, c, len)
    ensures bs[k].at in s.mem && c + len <= 0x1_0000_0000
    ensures BytesKept(m, SplitStores(m, pd, s.mem, bs[k].at, size), pd, c, len)
  {
    hide Tidy, StoreBytes, HeaderBytes, Lists, OnPages, LoadByte;
    SplitOnPages(s, bs, k, size, lim);
    SplitWords(s, bs, size, k);
    OnPagesEnd(c, len, s.root / 0x1000, lim);
    var h, at, lo := s.mem[bs[k].at], bs[k].at + 20 + size, s.root / 0x1000;
    if bs[k].size < size + 40 {
      StoreSpares(m, pd, taken, lo, lim, bs[k].at, HeaderBytes(h.(hole := false)), c, len);
    } else {
      var hole := MBlock(true, Sub32(Sub32(h.size, 20), size), Add32(at, 20), h.next);
      var m' := StoreBytes(m, pd, at, HeaderBytes(hole));
      StoreBytesTidy(m, pd, taken, lo, lim, at, HeaderBytes(hole));
      StoreSpares(m, pd, taken, lo, lim, at, HeaderBytes(hole), c, len);
      StoreSpares(m', pd, taken, lo, lim, bs[k].at, HeaderBytes(MBlock(false, size, h.addr, at)), c, len);
    }
  }

  /** The test of a safe split, without wrap-around. */
  lemma SplitWords(s: State, bs: seq<Block>, size: u32, k: nat)
    requires Lists(s, bs) && k < |bs| && bs[k].hole && bs[k].size >= size + 20
    ensures bs[k].at in s.mem && s.mem[bs[k].at].hole && s.mem[bs[k].at].size == bs[k].size
    ensures Sub32(s.mem[bs[k].at].size, Add32(size, 20)) < 20 <==> bs[k].size < size + 40
  {
    assert Linked(s.mem, bs, k);
    Bounds(bs, s.root, s.top, k);
  }

  lemma BlocksApart(s: State, bs: seq<Block>, k: nat, i: nat)
    requires Lists(s, bs) && k < |bs| && i < |bs| && i != k
    ensures Disjoint(bs[k].at, 20 + bs[k].size, bs[i].at, 20 + bs[i].size)
  {
    if i < k {
      InOrder(bs, s.root, s.top, i, k);
    } else {
      InOrder(bs, s.root, s.top, k, i);
    }
  }

  lemma SplitLive(m: Paging.Memory, pd: nat, taken: set<nat>, lim: nat, s: State, bs: seq<Block>, size: u32, k: nat)
    requires Lists(s, bs) && k < |bs| && bs[k].hole && bs[k].size >= size + 20 && s.top + 20 <= lim * 0x1000 && lim < Paging.PAGES
    requires pd < Frames.MAX_FRAMES && Tidy(m, pd, taken, s.root / 0x1000, lim)
    ensures bs[k].at in s.mem && LiveKept(m, SplitStores(m, pd, s.mem, bs[k].at, size), pd, bs)
  {
    hide Tidy, Lists, OnPages, BytesKept, SplitStores;
    SplitWords(s, bs, size, k);
    forall i | 0 <= i < |bs| && !bs[i].hole && bs[i].End() <= 0x1_0000_0000
      ensures BytesKept(m, SplitStores(m, pd, s.mem, bs[k].at, size), pd, bs[i].Payload(), bs[i].size)
    {
      BlocksApart(s, bs, k, i);
      BlocksOnPages(s, bs, lim, i);
      SplitSpares(m, pd, taken, lim, s, bs, size, k, bs[i].Payload(), bs[i].size);
    }
  }

  /** Below a mapped byte of the kernel area everything is mapped. */
  lemma BackedBelow(m: Paging.Memory, pd: nat, lim: nat, a: nat, n: nat, c: nat)
    requires pd < Frames.MAX_FRAMES && lim < Paging.PAGES && Paging.NoneAbove(m, pd, lim)
    requires 0xC000_0000 <= a && a + n <= c < lim * 0x1000 && LoadByte(m, pd, c).Some?
    ensures Backed(m, pd, a, n)
  {
    hide Paging.Translate;
    forall x: nat | a <= x < a + n ensures LoadByte(m, pd, x).Some? {
      assert Paging.FIRST_PAGE <= x / 0x1000 <= c / 0x1000 <= lim;
      FrameNumber(m, pd, x / 0x1000);
    }
  }

  /** On a safe request memory holds the list that Serve gives. */
  lemma SplitStored(m: Paging.Memory, pd: nat, taken: set<nat>, lim: nat, s: State, bs: seq<Block>, size: u32, k: nat)
    requires Lists(s, bs) && Safe(bs, size) && k == FirstFit(bs, 0, size) < |bs|
    requires s.top + 20 <= lim * 0x1000 && lim < Paging.PAGES && 0xC000_0000 <= s.root
    requires pd < Frames.MAX_FRAMES && Tidy(m, pd, taken, s.root / 0x1000, lim) && Stored(m, pd, s.mem, bs)
    ensures bs[k].at in s.mem
    ensures Stored(SplitStores(m, pd, s.mem, bs[k].at, size), pd, Split(s.mem, bs[k].at, size), Serve(bs, s.top, size))
  {
    hide Tidy, Lists, Safe, Serve, FirstFit, StoredAt, SplitStores, Split;
    SafeFacts(bs, s.top, size, k);
    SplitWords(s, bs, size, k);
    var n, mem, cs := SplitStores(m, pd, s.mem, bs[k].at, size), Split(s.mem, bs[k].at, size), Serve(bs, s.top, size);
    forall i | 0 <= i < |bs| && i != k ensures StoredAt(n, pd, mem, bs[i].at) {
      assert StoredAt(m, pd, s.mem, bs[i].at);
      SplitOther(m, pd, taken, lim, s, bs, size, k, i);
    }
    assert StoredAt(m, pd, s.mem, bs[k].at);
    if bs[k].size >= size + 40 {
      assert StoredAt(m, pd, s.mem, bs[k + 1].at);
      SplitPair(m, pd, taken, lim, s, bs, size, k);
    } else {
      SplitSelf(m, pd, taken, lim, s, bs, size, k);
    }
  }

  lemma SplitOther(m: Paging.Memory, pd: nat, taken: set<nat>, lim: nat, s: State, bs: seq<Block>, size: u32, k: nat, i: nat)
    requires Lists(s, bs) && k < |bs| && bs[k].hole && bs[k].size >= size + 20 && s.top + 20 <= lim * 0x1000 && lim < Paging.PAGES
    requires pd < Frames.MAX_FRAMES && Tidy(m, pd, taken, s.root / 0x1000, lim) && i < |bs| && i != k
    requires StoredAt(m, pd, s.mem, bs[i].at)
    ensures bs[k].at in s.mem
    ensures StoredAt(SplitStores(m, pd, s.mem, bs[k].at, size), pd, Split(s.mem, bs[k].at, size), bs[i].at)
  {
    hide Tidy, Lists, HeaderAt, SplitStores, BytesKept, OnPages;
    SplitWords(s, bs, size, k);
    SplitOnPages(s, bs, k, size, lim);
    BlocksApart(s, bs, k, i);
    BlocksOnPages(s, bs, lim, i);
    SplitSpares(m, pd, taken, lim, s, bs, size, k, bs[i].at, 20);
    HeaderSpared(m, SplitStores(m, pd, s.mem, bs[k].at, size), pd, bs[i].at, s.mem[bs[i].at]);
  }

  lemma SplitSelf(m: Paging.Memory, pd: nat, taken: set<nat>, lim: nat, s: State, bs: seq<Block>, size: u32, k: nat)
    requires Lists(s, bs) && k < |bs| && bs[k].hole && size + 20 <= bs[k].size < size + 40
    requires s.top + 20 <= lim * 0x1000 && lim < Paging.PAGES
    requires pd < Frames.MAX_FRAMES && Tidy(m, pd, taken, s.root / 0x1000, lim) && StoredAt(m, pd, s.mem, bs[k].at)
    ensures StoredAt(SplitStores(m, pd, s.mem, bs[k].at, size), pd, Split(s.mem, bs[k].at, size), bs[k].at)
  {
    hide Tidy, Lists, HeaderAt, StoreBytes, HeaderBytes, Backed;
    SplitWords(s, bs, size, k);
    SplitOnPages(s, bs, k, size, lim);
    var h := s.mem[bs[k].at];
    HeaderBacked(m, pd, bs[k].at, h);
    StoreHeader(m, pd, taken, s.root / 0x1000, lim, bs[k].at, h.(hole := false));
  }

  lemma SplitPair(m: Paging.Memory, pd: nat, taken: set<nat>, lim: nat, s: State, bs: seq<Block>, size: u32, k: nat)
    requires Lists(s, bs) && k < |bs| - 1 && bs[k].hole && size + 40 <= bs[k].size
    requires s.top + 20 <= lim * 0x1000 && lim < Paging.PAGES && 0xC000_0000 <= s.root
    requires pd < Frames.MAX_FRAMES && Tidy(m, pd, taken, s.root / 0x1000, lim)
    requires StoredAt(m, pd, s.mem, bs[k].at) && StoredAt(m, pd, s.mem, bs[k + 1].at)
    ensures var n, mem := SplitStores(m, pd, s.mem, bs[k].at, size), Split(s.mem, bs[k].at, size);
            StoredAt(n, pd, mem, bs[k].at) && StoredAt(n, pd, mem, bs[k].at + 20 + size)
  {
    hide Lists, HeaderAt, StoreBytes, HeaderBytes, Backed, Tidy, BytesKept;
    SplitWords(s, bs, size, k);
    SplitOnPages(s, bs, k, size, lim);
    BlocksApart(s, bs, k, k + 1);
    SplitRoom(m, pd, taken, lim, s, bs, size, k);
    var h, at, lo := s.mem[bs[k].at], bs[k].at + 20 + size, s.root / 0x1000;
    var hole, used := MBlock(true, Sub32(Sub32(h.size, 20), size), Add32(at, 20), h.next), MBlock(false, size, h.addr, at);
    var m' := StoreBytes(m, pd, at, HeaderBytes(hole));
    var n := StoreBytes(m', pd, bs[k].at, HeaderBytes(used));
    StoreHeader(m, pd, taken, lo, lim, at, hole);
    StoreBytesTidy(m, pd, taken, lo, lim, at, HeaderBytes(hole));
    StoreSpares(m, pd, taken, lo, lim, at, HeaderBytes(hole), bs[k].at, 20);
    HeaderSpared(m, m', pd, bs[k].at, h);
    HeaderBacked(m', pd, bs[k].at, h);
    StoreHeader(m', pd, taken, lo, lim, bs[k].at, used);
    StoreSpares(m', pd, taken, lo, lim, bs[k].at, HeaderBytes(used), at, 20);
    HeaderSpared(m', n, pd, at, hole);
  }

  /** The rest of a hole that is not the last block is mapped, as the header behind it is. */
  lemma SplitRoom(m: Paging.Memory, pd: nat, taken: set<nat>, lim: nat, s: State, bs: seq<Block>, size: u32, k: nat)
    requires Lists(s, bs) && k < |bs| - 1 && size + 40 <= bs[k].size && s.top + 20 <= lim * 0x1000 && lim < Paging.PAGES
    requires 0xC000_0000 <= s.root && pd < Frames.MAX_FRAMES && Tidy(m, pd, taken, s.root / 0x1000, lim)
    requires StoredAt(m, pd, s.mem, bs[k + 1].at)
    ensures bs[k].at + 40 + size <= 0x1_0000_0000 && Backed(m, pd, bs[k].at + 20 + size, 20)
  {
    hide HeaderBytes, LoadByte, Backed;
    InOrder(bs, s.root, s.top, k, k + 1);
    Bounds(bs, s.root, s.top, k);
    assert LoadByte(m, pd, bs[k + 1].at).Some?;
    BackedBelow(m, pd, lim, bs[k].at + 20 + size, 20, bs[k + 1].at);
  }

  // ----------------------------------------------------------------- growing

  /** Growing leaves memory with the headers and the payloads it held. */
  lemma GrowthStored(m: Paging.Memory, n: Paging.Memory, pd: nat, lim: nat, s: State, bs: seq<Block>)
    requires pd < Frames.MAX_FRAMES && Lists(s, bs) && s.top + 20 <= lim * 0x1000 && lim < Paging.PAGES
    requires PagesKept(m, n, pd, s.root / 0x1000, lim)
    ensures LiveKept(m, n, pd, bs) && (Stored(m, pd, s.mem, bs) ==> Stored(n, pd, s.mem, bs))
  {
    hide Lists, LoadByte, HeaderBytes, PagesKept, HeaderAt;
    forall i | 0 <= i < |bs|
      ensures BlocksKept(m, n, pd, bs[i]) && (StoredAt(m, pd, s.mem, bs[i].at) ==> StoredAt(n, pd, s.mem, bs[i].at))
    {
      BlocksOnPages(s, bs, lim, i);
      KeptOnPages(m, n, pd, s.root / 0x1000, lim, bs[i].Payload(), bs[i].size);
      KeptOnPages(m, n, pd, s.root / 0x1000, lim, bs[i].at, 20);
      if StoredAt(m, pd, s.mem, bs[i].at) {
        HeaderSpared(m, n, pd, bs[i].at, s.mem[bs[i].at]);
      }
    }
    assert forall i :: 0 <= i < |bs| ==> BlocksKept(m, n, pd, bs[i]);
  }

  ghost predicate BlocksKept(m: Paging.Memory, n: Paging.Memory, pd: nat, b: Block)
    requires pd < Frames.MAX_FRAMES
  {
    b.End() <= 0x1_0000_0000 ==> BytesKept(m, n, pd, b.Payload(), b.size)
  }

  lemma KeptOnPages(m: Paging.Memory, n: Paging.Memory, pd: nat, lo: nat, hi: nat, a: nat, len: nat)
    requires pd < Frames.MAX_FRAMES && hi < Paging.PAGES && PagesKept(m, n, pd, lo, hi) && OnPages(a, len, lo, hi)
    ensures a + len <= 0x1_0000_0000 && BytesKept(m, n, pd, a, len)
  {
    hide LoadByte;
    OnPagesEnd(a, len, lo, hi);
    forall c: nat | a <= c < a + len && LoadByte(m, pd, c).Some? ensures LoadByte(n, pd, c) == LoadByte(m, pd, c) {
      OnPagesAt(a, len, lo, hi, c);
    }
  }
}
