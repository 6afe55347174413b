/**
 malloc and the globals of kernel/memory/mm.c. Headers are read and written through the page map, in the same physical
 memory that holds the page tables; the block list is what those bytes say.
 */
module Mm {
  import opened Machine
  import opened Heap
  import opened Headers
  import Access
  import Frames
  import Paging

  /** What malloc comes to: NULL, an address, a frame_get that does not return, or a header store that faults. */
  datatype Alloc = Null | Hang | Fault | At(addr: u32)

  /** How a run of requests ends: through, or at a request that hangs, faults or uses the last frame up. */
  datatype Ended = Done | Hung | Faulted | Starved

  class KernelHeap {
    const space: Paging.AddressSpace
    var root: u32
    var last: u32
    var mallocTop: u32
    var heap: u32
    /** The headers, by address; `Stored` says that memory holds them. */
    ghost var mem: map<u32, MBlock>

    ghost function View(): State
      reads this
    {
      State(mem, root, last, mallocTop)
    }

    /**
     The heap's pages up to page `lim` of the kernel area are data pages, mapped from below, and the frames that are
     neither taken nor `spare` are clear. Spare frames lie under the heap's pages although the allocator counts them as
     free: at boot they are the rest of the first 4 MiB.
     */
    ghost predicate OnData(lim: nat, spare: set<nat>)
      reads this`root, space, space.frames, space.frames.bitmap
    {
      && space.Base() && 0xC000_0000 <= root && lim <= Paging.LAST_PAGE
      && Access.Tidy(space.phys, space.pd, space.Taken() + spare, root / 0x1000, lim)
    }

    /** A store of bytes through the page map, from address `at` on; it stops at the first byte that is not mapped. */
    method Store(at: u32, bytes: seq<u8>) returns (ok: bool)
      requires space.pd < Frames.MAX_FRAMES
      modifies space`phys
      ensures ok <==> Access.Reaches(old(space.phys), space.pd, at, bytes)
      ensures ok ==> space.phys == Access.StoreBytes(old(space.phys), space.pd, at, bytes)
    {
      hide Access.SetByte, Paging.Translate;
      var i := 0;
      while i < |bytes|
        invariant i <= |bytes| && space.phys == Access.StoreBytes(old(space.phys), space.pd, at, bytes[..i])
        invariant forall j: nat :: j < i ==> Access.ReachesAt(old(space.phys), space.pd, at, bytes, j)
      {
        assert bytes[..i + 1][..i] == bytes[..i];
        var a := (at + i) % 0x1_0000_0000;
        var f := Paging.Translate(space.phys, space.pd, a / 0x1000);
        if f.None? {
          assert !Access.ReachesAt(old(space.phys), space.pd, at, bytes, i);
          return false;
        }
        Access.FrameNumber(space.phys, space.pd, a / 0x1000);
        var w := space.phys[f.value][a / 4 % 1024];
        space.phys := Paging.Put(space.phys, f.value, a / 4 % 1024, Access.SetByte(w, a % 4, bytes[i]));
        i := i + 1;
      }
      assert bytes[..i] == bytes;
      return true;
    }

    /** mm: the root block of one byte. The local `heap` of mm shadows the global, which stays zero. */
    constructor (space: Paging.AddressSpace, start: u32)
      requires 0 < start < 0xFFFF_0000 && space.pd < Frames.MAX_FRAMES
      modifies space`phys
      ensures this.space == space && heap == 0 && mallocTop == start + 21 && root == start
      ensures Lists(View(), [Block(start, false, 1)]) && mem == map[start := MBlock(false, 1, start + 20, 0)]
      ensures Access.Reaches(old(space.phys), space.pd, start, HeaderBytes(MBlock(false, 1, start + 20, 0))) ==>
                space.phys == Access.StoreBytes(old(space.phys), space.pd, start, HeaderBytes(MBlock(false, 1, start + 20, 0)))
    {
      this.space := space;
      mem := map[start := MBlock(false, 1, start + 20, 0)];
      root, last, mallocTop, heap := start, start, start + 21, 0;
      new;
      hide HeaderBytes, Access.StoreBytes, Access.Reaches;
      assert Linked(mem, [Block(start, false, 1)], 0);
      var ok := Store(start, HeaderBytes(MBlock(false, 1, start + 20, 0)));
    }

    /** The header at `b`, read from memory. */
    method ReadHeader(b: u32) returns (h: MBlock)
      requires space.pd < Frames.MAX_FRAMES && StoredAt(space.phys, space.pd, mem, b)
      ensures h == mem[b]
    {
      HeaderReads(space.phys, space.pd, b, mem[b]);
      return LoadHeader(space.phys, space.pd, b).value;
    }

    /** _split_hole; 0 for NULL. `ok` is false where a store faults. */
    method SplitHole(b: u32, size: u32) returns (r: u32, ok: bool)
      requires space.pd < Frames.MAX_FRAMES && StoredAt(space.phys, space.pd, mem, b)
      modifies this`mem, space`phys
      ensures ok <==> SplitReaches(old(space.phys), space.pd, old(mem), b, size)
      ensures ok ==> mem == Split(old(mem), b, size) && r == if old(mem)[b].hole then b else 0
      ensures ok ==> space.phys == SplitStores(old(space.phys), space.pd, old(mem), b, size)
    {
      hide HeaderBytes, Access.StoreBytes, Access.Reaches, HeaderAt;
      var h := ReadHeader(b);
      if !h.hole {
        return 0, true;
      }
      if Sub32(h.size, Add32(size, 20)) < 20 {
        ok := Store(b, HeaderBytes(h.(hole := false)));
        mem := mem[b := h.(hole := false)];
        return b, ok;
      }
      var at := Add32(h.addr, size);
      var hole := MBlock(true, Sub32(Sub32(h.size, 20), size), Add32(at, 20), h.next);
      ok := Store(at, HeaderBytes(hole));
      if !ok {
        return 0, false;
      }
      ok := Store(b, HeaderBytes(MBlock(false, size, h.addr, at)));
      mem := mem[at := hole][b := MBlock(false, size, h.addr, at)];
      return b, ok;
    }

    /** _find_hole: the first hole that fits, split, and its payload address, which the split leaves alone; 0 for NULL. */
    method FindHole(size: u32, ghost bs: seq<Block>) returns (r: u32, addr: u32, ok: bool)
      requires Lists(View(), bs) && space.pd < Frames.MAX_FRAMES && Stored(space.phys, space.pd, mem, bs)
      modifies this`mem, space`phys
      ensures FirstFit(bs, 0, size) == |bs| ==> ok && r == 0 && mem == old(mem) && space.phys == old(space.phys)
      ensures FirstFit(bs, 0, size) < |bs| ==>
                var b := bs[FirstFit(bs, 0, size)].at;
                && b in old(mem) && (ok <==> SplitReaches(old(space.phys), space.pd, old(mem), b, size))
                && (ok ==> r == b && addr == old(mem)[b].addr && mem == Split(old(mem), b, size))
                && (ok ==> space.phys == SplitStores(old(space.phys), space.pd, old(mem), b, size))
    {
      hide Tiled, Split, SplitStores, SplitReaches, HeaderAt;
      var b := root;
      ghost var i := 0;
      Start(View(), bs);
      while b != 0
        invariant i <= |bs| && mem == old(mem) && Lists(View(), bs) && space.phys == old(space.phys)
        invariant b == if i < |bs| then bs[i].at else 0
        invariant FirstFit(bs, 0, size) == FirstFit(bs, i, size)
        decreases |bs| - i
      {
        assert Linked(mem, bs, i);
        assert StoredAt(space.phys, space.pd, mem, bs[i].at);
        var h := ReadHeader(b);
        if h.hole && h.size >= size {
          addr := h.addr;
          r, ok := SplitHole(b, size);
          return;
        }
        b := h.next;
        i := i + 1;
        Start(View(), bs);
      }
      return 0, 0, true;
    }

    /**
     expand, with `n` the first page that is not mapped. Where the page of malloc_top + size is mapped nothing changes;
     else pages are added, which no spare frame must lie under, because the allocator may give it out.
     */
    method Expand(size: u32, ghost lim: nat, ghost n: nat, ghost spare: set<nat>) returns (limit: Option<u32>)
      requires OnData(lim, spare) && mallocTop + size < lim * 0x1000 && Paging.IsTop(space.phys, space.pd, n)
      requires spare == {} || (mallocTop + size) / 0x1000 < n
      modifies space`phys, space.frames`frameIdx, space.frames`framesFree, space.frames`held, space.frames.bitmap
      ensures space.frames.Valid() && (limit.None? ==> !Frames.HasFreeGroup(space.frames.View()))
      ensures limit.Some? ==> PagesKept(old(space.phys), space.phys, space.pd, root / 0x1000, lim)
      ensures limit.Some? ==> space.frames.framesFree <= old(space.frames.framesFree)
      ensures limit.Some? && space.frames.held != old(space.frames.held) ==> space.frames.framesFree < old(space.frames.framesFree)
      ensures limit.Some? && space.frames.held == old(space.frames.held) ==>
                && space.phys == old(space.phys) && limit.value <= n * 0x1000 && OnData(lim, spare)
                && Paging.AddressSpace.Unused(old(space.frames.View()), old(space.frames.frameIdx), space.frames)
      ensures (mallocTop + size) / 0x1000 < n ==>
                limit == Some((mallocTop + size) / 0x1000 * 0x1000 + 0x1000) && space.frames.held == old(space.frames.held)
      ensures limit.Some? && space.frames.framesFree > 0 ==>
                && OnData(lim, spare) && limit.value == (mallocTop + size) / 0x1000 * 0x1000 + 0x1000
                && Paging.IsTop(space.phys, space.pd, Further(n, mallocTop + size))
    {
      hide Frames.Inv, Paging.Directory, Paging.Entries, Paging.ClearFree, Paging.Grown, Paging.RawTop,
           Paging.KeptOutside, Paging.Translate, Access.Tidy, PagesKept, Paging.IsTop, Paging.MappedTo;
      ghost var s, taken := space.Snapshot(), space.Taken();
      ghost var lo, hi, tables;
      limit, lo, hi, tables := space.PageMapUntil(mallocTop + size);
      TidyTop(s.phys, s.pd, taken + spare, root / 0x1000, lim, n, lo);
      if limit.Some? {
        if lo == hi {
          PagesKeptSelf(s.phys, s.pd, root / 0x1000, lim);
          assert space.Taken() == taken;
        } else {
          assert taken + spare == s.taken && hi <= lim;
          TidyIsClean(s.phys, s.pd, s.taken, root / 0x1000, lim);
          GrownHeap(s, space.phys, lo, hi, space.frames.held, space.frames.framesFree, tables, root / 0x1000, lim);
          assert s.taken + space.frames.held == space.Taken() + spare == space.Taken();
          if space.frames.framesFree > 0 {
            GrownTidy(s, space.phys, lo, hi, space.frames.held, space.frames.framesFree, tables, root / 0x1000, lim);
          }
        }
      }
    }

    /** The end of malloc: a header at malloc_top, linked behind the last one; false where a store faults. */
    method AppendBlock(size: u32) returns (b: u32, ok: bool)
      requires last in mem && last < mallocTop && mallocTop + size + 20 < 0x1_0000_0000 && space.pd < Frames.MAX_FRAMES
      modifies this`mem, this`last, this`mallocTop, space`phys
      ensures ok <==> AppendReaches(old(space.phys), space.pd, old(View()), size)
      ensures ok ==> View() == AppendState(old(View()), size) && b == old(mallocTop)
      ensures ok ==> space.phys == AppendStores(old(space.phys), space.pd, old(View()), size)
    {
      hide HeaderBytes, Access.StoreBytes, Bytes, Access.Reaches;
      b := mallocTop;
      ok := Store(b, HeaderBytes(MBlock(false, size, mallocTop + 20, 0)));
      if !ok {
        return;
      }
      ok := Store(last + 16, Bytes(b));
      mem := mem[b := MBlock(false, size, mallocTop + 20, 0)][last := mem[last].(next := b)];
      last := b;
      mallocTop := b + 20 + size;
    }

    /**
     malloc. Served from a hole, the heap is still a tiled list exactly when the request was Safe; appended, it always
     is. `n` is the first page that is not mapped, before and after. While frames last, a call that returns leaves every
     byte in use as it was, the heap on data pages and the headers of the new list in memory; it faults exactly when
     the new header does not lie below the pages mapped by then.
     */
    method Malloc(size: u32, ghost bs: seq<Block>, ghost lim: nat, ghost n: nat, ghost spare: set<nat>)
      returns (r: Alloc, ghost n': nat)
      requires Lists(View(), bs) && OnData(lim, spare) && ServeTop(bs, mallocTop, size) + 20 <= lim * 0x1000
      requires Stored(space.phys, space.pd, mem, bs) && Paging.IsTop(space.phys, space.pd, n) && heap <= n * 0x1000
      requires spare == {} || FirstFit(bs, 0, size) < |bs| || (mallocTop + size) / 0x1000 < n
      modifies this`mem, this`last, this`mallocTop, this`heap
      modifies space`phys, space.frames`frameIdx, space.frames`framesFree, space.frames`held, space.frames.bitmap
      ensures r.Null? <==> size == 0
      ensures r.Null? ==> View() == old(View()) && heap == old(heap) && space.phys == old(space.phys)
      ensures r.Hang? ==> !Frames.HasFreeGroup(space.frames.View())
      ensures r.At? ==> r.addr == Served(bs, old(mallocTop), size)
      ensures r.At? && Safe(bs, size) ==>
                Lists(View(), Serve(bs, old(mallocTop), size)) && mallocTop == ServeTop(bs, old(mallocTop), size)
      ensures r.At? && !Safe(bs, size) ==> forall cs :: !Lists(View(), cs)
      ensures r.At? && FirstFit(bs, 0, size) < |bs| ==> heap == old(heap) && mallocTop == old(mallocTop)
      ensures !r.Hang? ==> space.frames.framesFree <= old(space.frames.framesFree)
      ensures !r.Hang? && space.frames.held != old(space.frames.held) ==> space.frames.framesFree < old(space.frames.framesFree)
      ensures r.At? && (space.frames.framesFree > 0 || space.frames.held == old(space.frames.held)) ==>
                && OnData(lim, spare) && Paging.IsTop(space.phys, space.pd, n') && heap <= n' * 0x1000
                && (Safe(bs, size) ==> LiveKept(old(space.phys), space.phys, space.pd, bs))
                && (Safe(bs, size) ==> Stored(space.phys, space.pd, mem, Serve(bs, old(mallocTop), size)))
      // the exact fault: from a hole, and at the top
      ensures size > 0 && FirstFit(bs, 0, size) < |bs| ==> (r.Fault? <==> SplitFaults(old(space.phys), space.pd, bs, size))
      ensures size > 0 && FirstFit(bs, 0, size) < |bs| && Safe(bs, size) ==> r.At?
      ensures size > 0 && FirstFit(bs, 0, size) == |bs| && !r.Hang?
              && (space.frames.framesFree > 0 || (old(mallocTop) + size) / 0x1000 < n) ==>
                && (r.Fault? <==> !Fits(n, bs, old(mallocTop), size))
                && (r.At? ==> Extent(mallocTop, heap) == Append(Extent(old(mallocTop), old(heap)), size))
                && (r.At? ==> n' == Reach(n, bs, old(mallocTop), size))
      ensures r.At? && FirstFit(bs, 0, size) < |bs| ==> n' == n
      // a request that stays on mapped pages uses no frame, and changes data frames alone
      ensures FirstFit(bs, 0, size) < |bs| || (old(mallocTop) + size) / 0x1000 < n ==>
                && !r.Hang? && space.frames.held == old(space.frames.held)
                && Paging.AddressSpace.Unused(old(space.frames.View()), old(space.frames.frameIdx), space.frames)
                && (r.At? ==> Access.Untouched(old(space.phys), space.phys, space.pd, space.Taken() + spare))
    {
      hide Lists, FirstFit, Safe, Serve, Split, SplitStores, SplitReaches, SplitFaults, Stored, LiveKept, Fits, Reach,
           Access.Tidy, Access.Untouched, Frames.Inv, Paging.IsTop, Paging.Directory;
      n' := n;
      if size == 0 {
        return Null, n;
      }
      ghost var s, m, taken := View(), space.phys, space.Taken() + spare;
      ghost var k := FirstFit(bs, 0, size);
      HeadersPositive(s, bs, k);
      if k < |bs| {
        HoleServed(s, bs, size, k);
        AfterHole(m, space.pd, space.Taken(), taken, lim, s, bs, size, k, n);
      } else {
        ServedByAppend(bs, s.top, size);
        FitsPages(n, bs, s.top, size);
      }
      var b, addr, ok := FindHole(size, bs);
      if !ok {
        return Fault, n;
      }
      if b != 0 {
        return At(addr), n;
      }
      hide OnData;
      r, n' := MallocAtTop(size, bs, lim, n, spare);
    }

    /** The rest of malloc, where no hole fits: more pages if the mapped ones do not suffice, and a block at malloc_top. */
    method MallocAtTop(size: u32, ghost bs: seq<Block>, ghost lim: nat, ghost n: nat, ghost spare: set<nat>)
      returns (r: Alloc, ghost n': nat)
      requires Lists(View(), bs) && OnData(lim, spare) && mallocTop + 40 + size <= lim * 0x1000
      requires Stored(space.phys, space.pd, mem, bs) && Paging.IsTop(space.phys, space.pd, n) && heap <= n * 0x1000
      requires spare == {} || (mallocTop + size) / 0x1000 < n
      modifies this`mem, this`last, this`mallocTop, this`heap
      modifies space`phys, space.frames`frameIdx, space.frames`framesFree, space.frames`held, space.frames.bitmap
      ensures !r.Null? && (r.Hang? ==> !Frames.HasFreeGroup(space.frames.View()))
      ensures r.At? ==> r.addr == old(mallocTop) + 20 && mallocTop == old(mallocTop) + 20 + size
      ensures r.At? ==> Lists(View(), bs + [Block(old(mallocTop), false, size)])
      ensures !r.Hang? ==> space.frames.framesFree <= old(space.frames.framesFree)
      ensures !r.Hang? && space.frames.held != old(space.frames.held) ==> space.frames.framesFree < old(space.frames.framesFree)
      ensures r.At? && (space.frames.framesFree > 0 || space.frames.held == old(space.frames.held)) ==>
                && OnData(lim, spare) && Paging.IsTop(space.phys, space.pd, n') && heap <= n' * 0x1000
                && LiveKept(old(space.phys), space.phys, space.pd, bs)
                && Stored(space.phys, space.pd, mem, bs + [Block(old(mallocTop), false, size)])
      ensures !r.Hang? && (space.frames.framesFree > 0 || (old(mallocTop) + size) / 0x1000 < n) ==>
                && (r.Fault? <==> (old(mallocTop) + 19) / 0x1000 >= Further(n, old(mallocTop) + size))
                && (r.At? ==> heap == Append(Extent(old(mallocTop), old(heap)), size).heap)
                && (r.At? ==> n' == Further(n, old(mallocTop) + size))
      ensures (old(mallocTop) + size) / 0x1000 < n ==>
                && !r.Hang? && space.frames.held == old(space.frames.held)
                && Paging.AddressSpace.Unused(old(space.frames.View()), old(space.frames.frameIdx), space.frames)
                && (r.At? ==> Access.Untouched(old(space.phys), space.phys, space.pd, space.Taken() + spare))
    {
      hide Lists, AppendState, AppendStores, AppendReaches, Stored, LiveKept, Access.Tidy, Access.Untouched, Frames.Inv, PagesKept,
           Paging.IsTop, Paging.Directory, Append, Further;
      ghost var s, m := View(), space.phys;
      n' := n;
      NotGrown(s.top, size, heap, n);
      if mallocTop + size + 20 > heap {
        var limit := Expand(size, lim, n, spare);
        if limit.None? {
          return Hang, n;
        }
        heap := limit.value;
        GrowthStored(m, space.phys, space.pd, lim, s, bs);
        n' := if space.frames.held == old(space.frames.held) then n else Further(n, s.top + size);
      } else {
        LiveKeptSelf(m, space.pd, bs);
      }
      AppendLists(s, bs, size);
      ghost var u, taken := space.phys, space.Taken();
      ghost var clean := space.frames.framesFree > 0 || space.frames.held == old(space.frames.held);
      if clean {
        AfterAppend(u, space.pd, taken, taken + spare, lim, s, bs, size, n');
      }
      var b, ok := AppendBlock(size);
      if !ok {
        return Fault, n';
      }
      if clean {
        LiveKeptTwice(m, u, space.phys, space.pd, bs);
      }
      return At(b + 20), n';
    }

    /**
     A run of malloc calls: the heap is the list after the run and memory holds its headers, the payloads returned
     overlap neither each other nor what was in use, no byte that was in use changes, and at most 19 bytes lie past the
     mapped pages once a block was appended. With frames left it gets through exactly when every header fits. A run that
     ends on the pages mapped at its start always gets through, and uses no frame, whatever lies under those pages.
     */
    method MallocRun(sizes: seq<u32>, ghost bs: seq<Block>, ghost lim: nat, ghost n: nat, ghost spare: set<nat>)
      returns (addrs: seq<u32>, end: Ended, ghost n': nat)
      requires Lists(View(), bs) && OnData(lim, spare) && Stored(space.phys, space.pd, mem, bs)
      requires Paging.IsTop(space.phys, space.pd, n) && heap <= n * 0x1000
      requires (forall i :: 0 <= i < |sizes| ==> sizes[i] > 0) && SafeRun(bs, mallocTop, sizes)
      requires Run(bs, mallocTop, sizes).1 + 20 <= lim * 0x1000
      requires spare == {} || Run(bs, mallocTop, sizes).1 <= n * 0x1000
      modifies this`mem, this`last, this`mallocTop, this`heap
      modifies space`phys, space.frames`frameIdx, space.frames`framesFree, space.frames`held, space.frames.bitmap
      ensures end.Done? ==> |addrs| == |sizes| && Lists(View(), Run(bs, old(mallocTop), sizes).0) && OnData(lim, spare)
      ensures end.Done? ==> mallocTop == Run(bs, old(mallocTop), sizes).1 && Paging.IsTop(space.phys, space.pd, n')
      ensures end.Done? ==> Stored(space.phys, space.pd, mem, Run(bs, old(mallocTop), sizes).0) && heap <= n' * 0x1000
      ensures end.Done? ==> forall i, j :: 0 <= i < j < |addrs| ==> Disjoint(addrs[i], sizes[i], addrs[j], sizes[j])
      ensures end.Done? ==> forall i, x :: 0 <= i < |addrs| && x in Live(bs) ==> Disjoint(addrs[i], sizes[i], x.0, x.1)
      ensures end.Done? ==> LiveKept(old(space.phys), space.phys, space.pd, bs)
      ensures space.frames.framesFree > 0 && end.Done? ==>
                && RunFits(n, bs, old(mallocTop), sizes) && n' == RunReach(n, bs, old(mallocTop), sizes)
                && (mallocTop == old(mallocTop) || mallocTop < heap + 20)
      ensures space.frames.framesFree > 0 && end.Faulted? ==> !RunFits(n, bs, old(mallocTop), sizes)
      ensures end.Hung? ==> !Frames.HasFreeGroup(space.frames.View())
      ensures end.Starved? ==> space.frames.framesFree == 0
      ensures Run(bs, old(mallocTop), sizes).1 <= n * 0x1000 ==>
                && end.Done? && n' == n && space.frames.held == old(space.frames.held)
                && (mallocTop == old(mallocTop) || mallocTop < heap + 20)
                && Paging.AddressSpace.Unused(old(space.frames.View()), old(space.frames.frameIdx), space.frames)
                && Access.Untouched(old(space.phys), space.phys, space.pd, space.Taken() + spare)
    {
      hide Lists, Safe, Serve, Run, SafeRun, OnData, FirstFit, Append, ServeTop, Owns, Disjoint, Tiled, Served, Stored,
           LiveKept, Fits, Reach, RunFits, RunReach, Placed, Live, Access.Untouched, Paging.IsTop, Access.Tidy;
      PlacedStart(bs, sizes);
      OnDataFacts(lim, spare);
      LiveKeptSelf(space.phys, space.pd, bs);
      Access.UntouchedSelf(space.phys, space.pd, space.Taken() + spare);
      addrs, n' := [], n;
      ghost var cs, top, all := bs, mallocTop, space.Taken() + spare;
      ghost var inside := Run(bs, mallocTop, sizes).1 <= n * 0x1000;
      assert sizes[0..] == sizes;
      for i := 0 to |sizes|
        invariant |addrs| == i && Lists(View(), cs) && OnData(lim, spare) && Stored(space.phys, space.pd, mem, cs)
        invariant Paging.IsTop(space.phys, space.pd, n') && heap <= n' * 0x1000
        invariant SafeRun(cs, mallocTop, sizes[i..]) && Run(cs, mallocTop, sizes[i..]) == Run(bs, top, sizes)
        invariant Placed(bs, cs, addrs, sizes) && LiveKept(old(space.phys), space.phys, space.pd, bs)
        invariant space.frames.framesFree <= old(space.frames.framesFree)
        invariant space.frames.framesFree > 0 || inside ==>
                    && (RunFits(n, bs, top, sizes) <==> RunFits(n', cs, mallocTop, sizes[i..]))
                    && RunReach(n, bs, top, sizes) == RunReach(n', cs, mallocTop, sizes[i..])
                    && mallocTop >= top && (mallocTop == top || mallocTop < heap + 20)
        invariant inside ==>
                    && n' == n && space.frames.held == old(space.frames.held) && space.Taken() + spare == all
                    && Paging.AddressSpace.Unused(old(space.frames.View()), old(space.frames.frameIdx), space.frames)
                    && Access.Untouched(old(space.phys), space.phys, space.pd, all)
      {
        assert sizes[i..][1..] == sizes[i + 1..];
        RunStep(View(), cs, sizes[i..]);
        ListsTiled(View(), cs);
        RunStays(root, n', cs, mallocTop, sizes[i..]);
        ghost var e, m := Extent(mallocTop, heap), space.phys;
        RunFitsStep(n', cs, mallocTop, sizes[i..]);
        var r, free := Null, space.frames.framesFree;
        r, n' := Malloc(sizes[i], cs, lim, n', spare);
        if r.Hang? {
          return addrs, Hung, n';
        }
        if r.Fault? {
          return addrs, Faulted, n';
        }
        if space.frames.framesFree == 0 && free > 0 {
          return addrs, Starved, n';
        }
        AppendPassesIff(e, sizes[i]);
        TopMoves(cs, e.top, sizes[i], e);
        PlacedLive(bs, cs, addrs, sizes);
        PlacedNext(root, bs, cs, e.top, addrs, sizes);
        LiveKeptLess(m, space.phys, space.pd, bs, cs);
        LiveKeptTwice(old(space.phys), m, space.phys, space.pd, bs);
        if inside {
          Access.UntouchedTwice(old(space.phys), m, space.phys, space.pd, all);
        }
        addrs := addrs + [r.addr];
        cs := Serve(cs, e.top, sizes[i]);
      }
      assert sizes[|sizes|..] == [];
      RunNone(cs, mallocTop);
      RunFitsNone(n', cs, mallocTop);
      PlacedApart(bs, cs, addrs, sizes);
      return addrs, Done, n';
    }

    lemma OnDataFacts(lim: nat, spare: set<nat>)
      requires OnData(lim, spare)
      ensures space.pd < Frames.MAX_FRAMES
    {
    }
  }

  // --------------------------------------------------------------- the page map

  /** The first page that is not mapped once `a` is, if it was `n` before. */
  function Further(n: nat, a: nat): nat { if a / 0x1000 < n then n else a / 0x1000 + 1 }

  lemma NotGrown(top: nat, size: nat, heap: nat, n: nat)
    ensures heap <= n * 0x1000 && top + size + 20 <= heap ==> (top + size) / 0x1000 < n
    ensures (top + size) / 0x1000 * 0x1000 + 0x1000 <= Further(n, top + size) * 0x1000
    ensures (top + size) / 0x1000 < n ==> Further(n, top + size) == n
    ensures Append(Extent(top, heap), size).heap ==
            if top + size + 20 > heap then (top + size) / 0x1000 * 0x1000 + 0x1000 else heap
  {
  }

  lemma FitsPages(n: nat, bs: seq<Block>, top: nat, size: nat)
    requires FirstFit(bs, 0, size) == |bs|
    ensures Fits(n, bs, top, size) <==> (top + 19) / 0x1000 < Further(n, top + size)
    ensures Reach(n, bs, top, size) == Further(n, top + size)
  {
    hide FirstFit;
  }

  /** A run that ends on mapped pages does not grow the heap now. */
  lemma RunStays(lo: nat, n: nat, bs: seq<Block>, top: nat, sizes: seq<u32>)
    requires Tiled(bs, lo, top) && SafeRun(bs, top, sizes) && (forall i :: 0 <= i < |sizes| ==> sizes[i] > 0) && sizes != []
    ensures Run(bs, top, sizes).1 <= n * 0x1000 ==>
              && RunFits(n, bs, top, sizes) && Reach(n, bs, top, sizes[0]) == n
              && (FirstFit(bs, 0, sizes[0]) == |bs| ==> (top + sizes[0]) / 0x1000 < n)
  {
    hide Tiled, SafeRun, Run, RunFits, FirstFit;
    if Run(bs, top, sizes).1 <= n * 0x1000 {
      RunInside(n, bs, lo, top, sizes);
    }
  }

  lemma RunFitsStep(n: nat, bs: seq<Block>, top: nat, sizes: seq<u32>)
    requires sizes != []
    ensures RunFits(n, bs, top, sizes) <==>
            Fits(n, bs, top, sizes[0])
            && RunFits(Reach(n, bs, top, sizes[0]), Serve(bs, top, sizes[0]), ServeTop(bs, top, sizes[0]), sizes[1..])
    ensures RunReach(n, bs, top, sizes) ==
            RunReach(Reach(n, bs, top, sizes[0]), Serve(bs, top, sizes[0]), ServeTop(bs, top, sizes[0]), sizes[1..])
    ensures FirstFit(bs, 0, sizes[0]) < |bs| ==> Fits(n, bs, top, sizes[0]) && Reach(n, bs, top, sizes[0]) == n
  {
    hide FirstFit, Serve;
  }

  lemma RunFitsNone(n: nat, bs: seq<Block>, top: nat)
    ensures RunFits(n, bs, top, []) && RunReach(n, bs, top, []) == n
  {
  }

  lemma PagesKeptSelf(m: Paging.Memory, pd: nat, lo: nat, hi: nat)
    requires pd < Frames.MAX_FRAMES && hi < Paging.PAGES
    ensures PagesKept(m, m, pd, lo, hi)
  {
  }

  /** What page_upper finds is the first page that is not mapped. */
  lemma TidyTop(m: Paging.Memory, pd: nat, taken: set<nat>, lo: nat, hi: nat, n: nat, top: nat)
    requires pd < Frames.MAX_FRAMES && hi < Paging.PAGES && Access.Tidy(m, pd, taken, lo, hi)
    requires Paging.IsTop(m, pd, n) && Paging.RawTop(m, pd, top)
    ensures top == n && n <= Paging.LAST_PAGE
  {
    Paging.RawTopIsTop(m, pd, taken, top);
    Paging.TopUnique(m, pd, n, top);
  }

  lemma TidyTops(m: Paging.Memory, pd: nat, taken: set<nat>, lo: nat, hi: nat, top: nat)
    requires pd < Frames.MAX_FRAMES && hi < Paging.PAGES && Access.Tidy(m, pd, taken, lo, hi) && Paging.RawTop(m, pd, top)
    ensures Paging.IsTop(m, pd, top)
  {
    Paging.RawTopIsTop(m, pd, taken, top);
  }

  lemma TidyIsClean(m: Paging.Memory, pd: nat, taken: set<nat>, lo: nat, hi: nat)
    requires pd < Frames.MAX_FRAMES && hi < Paging.PAGES && Access.Tidy(m, pd, taken, lo, hi)
    ensures Paging.Directory(m, pd, taken) && Paging.Entries(m, pd) && Paging.ClearFree(m, taken)
  {
  }

  /** Growing keeps the bytes of the heap's pages. */
  lemma GrownHeap(s: Paging.Start, m: Paging.Memory, lo: nat, hi: nat, held: set<nat>, free: int, tables: set<nat>, a: nat, b: nat)
    requires s.pd < Frames.MAX_FRAMES && lo < hi <= b <= Paging.LAST_PAGE && Paging.FIRST_PAGE <= a && s.held <= s.taken
    requires Access.Tidy(s.phys, s.pd, s.taken, a, b) && Paging.RawTop(s.phys, s.pd, lo)
    requires Paging.Grown(s, m, lo, hi, held, free, tables)
    ensures PagesKept(s.phys, m, s.pd, a, b) && s.held <= held && free < s.free && held != s.held
  {
    hide Paging.Grown, Paging.RawTop, Paging.IsTop, Access.Tidy, Access.LoadByte, Paging.MappedTo;
    TidyTops(s.phys, s.pd, s.taken, a, b, lo);
    GrownHeld(s, m, lo, hi, held, free, tables);
    forall c: nat | c < 0x1_0000_0000 && a <= c / 0x1000 < b && Access.LoadByte(s.phys, s.pd, c).Some?
      ensures Access.LoadByte(m, s.pd, c) == Access.LoadByte(s.phys, s.pd, c)
    {
      Access.GrowthKeepsByte(s, m, lo, hi, held, free, tables, a, b, c);
    }
  }

  lemma GrownHeld(s: Paging.Start, m: Paging.Memory, lo: nat, hi: nat, held: set<nat>, free: int, tables: set<nat>)
    requires s.pd < Frames.MAX_FRAMES && lo < hi <= Paging.PAGES && s.held <= s.taken
    requires Paging.Grown(s, m, lo, hi, held, free, tables)
    ensures s.held <= held && free < s.free && held != s.held
  {
    var f := Paging.Translate(m, s.pd, lo).value;
    assert f in Paging.FramesOf(m, s.pd, lo, hi);
  }

  /** Growing a clean map keeps the heap's pages data pages of a clean map, and maps all below its end. */
  lemma GrownTidy(s: Paging.Start, m: Paging.Memory, lo: nat, hi: nat, held: set<nat>, free: int, tables: set<nat>, a: nat, b: nat)
    requires s.pd < Frames.MAX_FRAMES && lo < hi <= b <= Paging.LAST_PAGE && 0 in s.taken && s.pd in s.taken
    requires Access.Tidy(s.phys, s.pd, s.taken, a, b) && Paging.RawTop(s.phys, s.pd, lo)
    requires Paging.Grown(s, m, lo, hi, held, free, tables) && Paging.KeptOutside(s.phys, m, s.pd, lo, hi)
    requires Paging.Directory(m, s.pd, s.taken + held) && Paging.Entries(m, s.pd) && Paging.ClearFree(m, s.taken + held)
    ensures Access.Tidy(m, s.pd, s.taken + held, a, b) && Paging.IsTop(m, s.pd, hi)
  {
    TidyTops(s.phys, s.pd, s.taken, a, b, lo);
    hide Paging.Grown, Paging.RawTop, Paging.IsTop, Paging.Directory, Paging.Entries, Paging.ClearFree, Paging.KeptOutside,
         Access.DataPages;
    Access.GrowthKeepsData(s, m, lo, hi, held, free, tables, a, b);
    TopBelow(s.phys, s.pd, lo);
    Access.GrowthKeepsPrefix(s, m, lo, hi, held, free, tables, b);
    Paging.GrownTop(s, m, lo, hi, held, free, tables);
  }

  lemma TopBelow(m: Paging.Memory, pd: nat, n: nat)
    requires pd < Frames.MAX_FRAMES && Paging.IsTop(m, pd, n)
    ensures n <= Paging.LAST_PAGE
  {
  }

  // ------------------------------------------------------------ after the stores

  /** The request cuts a hole whose rest has no mapped place for a second header. */
  ghost predicate SplitFaults(m: Paging.Memory, pd: nat, bs: seq<Block>, size: u32)
    requires pd < Frames.MAX_FRAMES
  {
    var k := FirstFit(bs, 0, size);
    && k < |bs| && bs[k].size < 0x1_0000_0000 && bs[k].at + 40 + size <= 0x1_0000_0000
    && Cuts(bs[k], size) && !Access.Backed(m, pd, bs[k].at + 20 + size, 20)
  }

  lemma SameTop(m: Paging.Memory, n: Paging.Memory, pd: nat, taken: set<nat>, top: nat)
    requires pd < Frames.MAX_FRAMES && Access.Untouched(m, n, pd, taken) && Paging.IsTop(m, pd, top)
    ensures Paging.IsTop(n, pd, top)
  {
    hide Paging.Translate;
  }

  lemma AfterHole(m: Paging.Memory, pd: nat, taken: set<nat>, all: set<nat>, lim: nat,
                  s: State, bs: seq<Block>, size: u32, k: nat, top: nat)
    requires Lists(s, bs) && k == FirstFit(bs, 0, size) < |bs| && 0xC000_0000 <= s.root
    requires s.top + 20 <= lim * 0x1000 && lim < Paging.PAGES && pd < Frames.MAX_FRAMES && Paging.IsTop(m, pd, top)
    requires Access.Tidy(m, pd, all, s.root / 0x1000, lim) && Stored(m, pd, s.mem, bs) && Paging.Directory(m, pd, taken)
    ensures bs[k].at in s.mem && s.mem[bs[k].at].addr == Served(bs, s.top, size)
    ensures SplitReaches(m, pd, s.mem, bs[k].at, size) <==> !SplitFaults(m, pd, bs, size)
    ensures Safe(bs, size) ==> SplitReaches(m, pd, s.mem, bs[k].at, size)
    ensures var n := SplitStores(m, pd, s.mem, bs[k].at, size);
            && Access.Tidy(n, pd, all, s.root / 0x1000, lim) && Access.Untouched(m, n, pd, all)
            && Paging.Directory(n, pd, taken) && Paging.IsTop(n, pd, top)
            && (Safe(bs, size) ==> LiveKept(m, n, pd, bs))
            && (Safe(bs, size) ==> Stored(n, pd, Split(s.mem, bs[k].at, size), Serve(bs, s.top, size)))
  {
    hide Lists, Safe, Stored, LiveKept, SplitStores, SplitReaches, Split, Serve, Access.Tidy, Access.Untouched, Paging.Directory,
         Paging.IsTop, Access.Backed, FirstFit;
    HoleAddr(s, bs, size, k);
    SplitTidy(m, pd, all, lim, s, bs, size, k);
    SplitReachesIff(m, pd, all, lim, s, bs, size, k);
    var n := SplitStores(m, pd, s.mem, bs[k].at, size);
    Access.UntouchedDirectory(m, n, pd, taken, all);
    SameTop(m, n, pd, all, top);
    if Safe(bs, size) {
      SafeFacts(bs, s.top, size, k);
      SafeReaches(m, pd, all, lim, s, bs, size, k);
      SplitLive(m, pd, all, lim, s, bs, size, k);
      SplitStored(m, pd, all, lim, s, bs, size, k);
    }
  }

  lemma HoleAddr(s: State, bs: seq<Block>, size: u32, k: nat)
    requires Lists(s, bs) && k == FirstFit(bs, 0, size) < |bs|
    ensures bs[k].at in s.mem && s.mem[bs[k].at].addr == Served(bs, s.top, size) && bs[k].hole && bs[k].size >= size
  {
    assert Linked(s.mem, bs, k);
  }

  lemma AfterAppend(m: Paging.Memory, pd: nat, taken: set<nat>, all: set<nat>, lim: nat,
                    s: State, bs: seq<Block>, size: u32, top: nat)
    requires Lists(s, bs) && s.top + 20 + size <= lim * 0x1000 && lim <= Paging.LAST_PAGE && pd < Frames.MAX_FRAMES
    requires Access.Tidy(m, pd, all, s.root / 0x1000, lim) && 0xC000_0000 <= s.root
    requires Stored(m, pd, s.mem, bs) && Paging.Directory(m, pd, taken) && Paging.IsTop(m, pd, top)
    ensures s.last in s.mem && s.top + 20 + size < 0x1_0000_0000
    ensures AppendReaches(m, pd, s, size) <==> (s.top + 19) / 0x1000 < top
    ensures var n := AppendStores(m, pd, s, size);
            && Access.Tidy(n, pd, all, s.root / 0x1000, lim) && Access.Untouched(m, n, pd, all) && LiveKept(m, n, pd, bs)
            && Paging.Directory(n, pd, taken) && Paging.IsTop(n, pd, top)
            && (AppendReaches(m, pd, s, size) ==> Stored(n, pd, AppendState(s, size).mem, bs + [Block(s.top, false, size)]))
  {
    hide Lists, Stored, LiveKept, AppendStores, AppendState, AppendReaches, Access.Tidy, Access.Untouched, Access.Backed,
         Paging.Directory, Paging.IsTop;
    LastBlock(s, bs);
    RootBelow(s, bs);
    AppendTidy(m, pd, all, lim, s, bs, size);
    AppendLive(m, pd, all, lim, s, bs, size);
    AppendReachesIff(m, pd, all, lim, s, bs, size);
    BackedIff(m, pd, all, s.root / 0x1000, lim, top, s.top);
    Access.UntouchedDirectory(m, AppendStores(m, pd, s, size), pd, taken, all);
    SameTop(m, AppendStores(m, pd, s, size), pd, all, top);
    if AppendReaches(m, pd, s, size) {
      AppendStored(m, pd, all, lim, s, bs, size);
    }
  }

  lemma RootBelow(s: State, bs: seq<Block>)
    requires Lists(s, bs)
    ensures s.root <= s.top
  {
    Bounds(bs, s.root, s.top, 0);
  }

  /** Twenty bytes of the kernel area are mapped exactly when they lie below the first page that is not. */
  lemma BackedIff(m: Paging.Memory, pd: nat, taken: set<nat>, lo: nat, lim: nat, top: nat, a: nat)
    requires pd < Frames.MAX_FRAMES && lim <= Paging.LAST_PAGE && Access.Tidy(m, pd, taken, lo, lim) && Paging.IsTop(m, pd, top)
    requires 0xC000_0000 <= a && a + 20 <= lim * 0x1000
    ensures a + 20 < 0x1_0000_0000 && (Access.Backed(m, pd, a, 20) <==> (a + 19) / 0x1000 < top)
  {
    hide Paging.Translate, Paging.Sound, Paging.ClearFree, Access.DataPages;
    if (a + 19) / 0x1000 < top {
      forall c: nat | a <= c < a + 20 ensures Access.LoadByte(m, pd, c).Some? {
        assert Paging.FIRST_PAGE <= c / 0x1000 < top;
        Access.FrameNumber(m, pd, c / 0x1000);
      }
    } else {
      var q := (a + 19) / 0x1000;
      assert Paging.FIRST_PAGE <= top <= q <= lim;
      assert Access.LoadByte(m, pd, a + 19).None?;
    }
  }
}
