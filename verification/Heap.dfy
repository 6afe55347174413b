/**
 The block list of kernel/memory/mm.c. Headers sit in memory in front of their
 payloads and are linked by address; here they are a map from header address to
 header, and module Headers says when memory holds them, byte for byte.
 */
module Heap {
  import opened Machine
  /** sizeof(mblock_t) is 20, written out below. */
  datatype MBlock = MBlock(hole: bool, size: u32, addr: u32, next: u32)

  /** The globals of mm.c that the block list depends on. */
  datatype State = State(mem: map<u32, MBlock>, root: u32, last: u32, top: u32)

  /** A block as a stretch of memory: its header address, whether it is a hole, its payload size. */
  datatype Block = Block(at: nat, hole: bool, size: nat) {
    function Payload(): nat { at + 20 }
    function End(): nat { at + 20 + size }
  }

  /** `bs` tiles [lo, hi): each block ends where the next header starts. */
  ghost predicate Tiled(bs: seq<Block>, lo: nat, hi: nat) {
    && |bs| > 0 && bs[0].at == lo && bs[|bs| - 1].End() == hi
    && forall i :: 0 <= i < |bs| - 1 ==> bs[i].End() == bs[i + 1].at
  }

  /** The list in memory is exactly `bs`, and `bs` tiles the heap from the root to malloc_top. */
  ghost predicate Lists(s: State, bs: seq<Block>) {
    && 0 < s.root && Tiled(bs, s.root, s.top) && s.last == bs[|bs| - 1].at
    && forall i :: 0 <= i < |bs| ==> Linked(s.mem, bs, i)
  }

  /** Block `i` of the list is in memory and points to block `i + 1`, the last one to NULL. */
  ghost predicate Linked(mem: map<u32, MBlock>, bs: seq<Block>, i: nat)
    requires i < |bs|
  {
    && bs[i].at in mem
    && mem[bs[i].at].hole == bs[i].hole && mem[bs[i].at].size == bs[i].size && mem[bs[i].at].addr == bs[i].Payload()
    && mem[bs[i].at].next == if i + 1 < |bs| then bs[i + 1].at else 0
  }

  // ------------------------------------------------ what malloc does to the list

  /** The first hole of at least `size` bytes, from block `k` on; |bs| when there is none. */
  function FirstFit(bs: seq<Block>, k: nat, size: nat): (i: nat)
    requires k <= |bs|
    ensures k <= i <= |bs|
    ensures i < |bs| ==> bs[i].hole && bs[i].size >= size
    ensures forall j :: k <= j < i ==> !(bs[j].hole && bs[j].size >= size)
    decreases |bs| - k
  {
    if k == |bs| then k
    else if bs[k].hole && bs[k].size >= size then k
    else FirstFit(bs, k + 1, size)
  }

  /** The request is served by an append, or by a hole with room for the header test; and no split hits the tail. */
  predicate Safe(bs: seq<Block>, size: nat) {
    var k := FirstFit(bs, 0, size);
    k < |bs| ==> bs[k].size >= size + 20 && (bs[k].size < size + 40 || k < |bs| - 1)
  }

  /** The list after a safe request. */
  function Serve(bs: seq<Block>, top: nat, size: nat): seq<Block>
  {
    var k := FirstFit(bs, 0, size);
    if k == |bs| then bs + [Block(top, false, size)]
    else if bs[k].size < size + 40 then bs[k := bs[k].(hole := false)]
    else bs[..k] + [Block(bs[k].at, false, size), Block(bs[k].at + 20 + size, true, bs[k].size - 20 - size)] + bs[k + 1..]
  }

  function ServeTop(bs: seq<Block>, top: nat, size: nat): nat {
    if FirstFit(bs, 0, size) == |bs| then top + 20 + size else top
  }

  /** The payload address a request returns. */
  function Served(bs: seq<Block>, top: nat, size: nat): nat {
    var k := FirstFit(bs, 0, size);
    if k == |bs| then top + 20 else bs[k].Payload()
  }

  /** A block cut in two leaves the tiling whole. */
  lemma CutTiles(bs: seq<Block>, lo: nat, hi: nat, k: nat, a: Block, b: Block, cs: seq<Block>)
    requires Tiled(bs, lo, hi) && k < |bs| && a.at == bs[k].at && a.End() == b.at && b.End() == bs[k].End()
    requires cs == bs[..k] + [a, b] + bs[k + 1..]
    ensures Tiled(cs, lo, hi)
  {
    forall i | 0 <= i < |cs| - 1 ensures cs[i].End() == cs[i + 1].at {
      if i < k - 1 {
        assert bs[i].End() == bs[i + 1].at;
      } else if i == k - 1 {
        assert bs[k - 1].End() == bs[k].at;
      } else if i > k {
        assert bs[i - 1].End() == bs[i].at;
      }
    }
  }

  /** A safe request keeps the tiling. */
  lemma ServeTiles(bs: seq<Block>, lo: nat, top: nat, size: nat)
    requires Tiled(bs, lo, top) && Safe(bs, size)
    ensures Tiled(Serve(bs, top, size), lo, ServeTop(bs, top, size))
  {
    hide FirstFit;
    var k := FirstFit(bs, 0, size);
    if k < |bs| && bs[k].size >= size + 40 {
      hide Tiled;
      CutTiles(bs, lo, top, k, Block(bs[k].at, false, size), Block(bs[k].at + 20 + size, true, bs[k].size - 20 - size),
               Serve(bs, top, size));
    }
  }

  /** Blocks lie in order: a block ends at or before the header of every later block. */
  lemma {:induction false} InOrder(bs: seq<Block>, lo: nat, hi: nat, i: nat, j: nat)
    requires Tiled(bs, lo, hi) && i < j < |bs|
    ensures bs[i].End() <= bs[j].at && lo <= bs[i].at && bs[j].End() <= hi
    decreases j - i, |bs| - j, i
  {
    assert bs[i].End() == bs[i + 1].at;
    if i + 1 < j {
      InOrder(bs, lo, hi, i + 1, j);
    }
    Bounds(bs, lo, hi, i);
    Bounds(bs, lo, hi, j);
  }

  lemma {:induction false} Bounds(bs: seq<Block>, lo: nat, hi: nat, i: nat)
    requires Tiled(bs, lo, hi) && i < |bs|
    ensures lo <= bs[i].at && bs[i].End() <= hi
  {
    Above(bs, lo, hi, i);
    Below(bs, lo, hi, i);
  }

  lemma {:induction false} Above(bs: seq<Block>, lo: nat, hi: nat, i: nat)
    requires Tiled(bs, lo, hi) && i < |bs|
    ensures lo <= bs[i].at
  {
    if i > 0 {
      Above(bs, lo, hi, i - 1);
      assert bs[i - 1].End() == bs[i].at;
    }
  }

  lemma {:induction false} Below(bs: seq<Block>, lo: nat, hi: nat, i: nat)
    requires Tiled(bs, lo, hi) && i < |bs|
    ensures bs[i].End() <= hi
    decreases |bs| - i
  {
    if i < |bs| - 1 {
      Below(bs, lo, hi, i + 1);
      assert bs[i].End() == bs[i + 1].at;
    }
  }

  /** Every byte of a tiled heap lies in some block. */
  lemma {:induction false} EveryByteInBlock(bs: seq<Block>, lo: nat, hi: nat, c: nat) returns (i: nat)
    requires Tiled(bs, lo, hi) && lo <= c < hi
    ensures i < |bs| && bs[i].at <= c < bs[i].End()
    decreases |bs|
  {
    var n := |bs| - 1;
    if c >= bs[n].at {
      return n;
    }
    assert n > 0 && bs[n - 1].End() == bs[n].at;
    i := EveryByteInBlock(bs[..n], lo, bs[n].at, c);
  }

  /** Headers plus payloads. */
  function Total(bs: seq<Block>): nat {
    if bs == [] then 0 else 20 + bs[0].size + Total(bs[1..])
  }

  /** In a tiled heap nothing is lost: headers and payloads add up to the heap. */
  lemma {:induction false} TotalIsExtent(bs: seq<Block>, lo: nat, hi: nat)
    requires Tiled(bs, lo, hi)
    ensures Total(bs) == hi - lo
    decreases |bs|
  {
    if |bs| > 1 {
      assert bs[0].End() == bs[1].at;
      forall i | 0 <= i < |bs[1..]| - 1 ensures bs[1..][i].End() == bs[1..][i + 1].at {
        assert bs[i + 1].End() == bs[i + 2].at;
      }
      TotalIsExtent(bs[1..], bs[0].End(), hi);
    } else {
      assert bs[1..] == [];
    }
  }

  /** The payloads in use, as (address, size) pairs. */
  ghost function Live(bs: seq<Block>): set<(nat, nat)> {
    set i | 0 <= i < |bs| && !bs[i].hole :: (bs[i].Payload(), bs[i].size)
  }

  /** A stretch that meets no header of the heap and no live payload. */
  ghost predicate Apart(bs: seq<Block>, a: nat, n: nat) {
    forall i :: 0 <= i < |bs| ==>
      && (a + n <= bs[i].at || bs[i].Payload() <= a)
      && (bs[i].hole || a + n <= bs[i].Payload() || bs[i].End() <= a)
  }

  /** How many bytes a request gets: the whole hole when the rest could not hold a header and more. */
  function Granted(bs: seq<Block>, size: nat): nat {
    var k := FirstFit(bs, 0, size);
    if k < |bs| && bs[k].size < size + 40 then bs[k].size else size
  }

  /** The bytes returned met no header and no live payload, and live payloads only gain this one. */
  lemma ServeFresh(bs: seq<Block>, lo: nat, top: nat, size: nat)
    requires Tiled(bs, lo, top) && Safe(bs, size)
    ensures size <= Granted(bs, size) < size + 40
    ensures Apart(bs, Served(bs, top, size), Granted(bs, size))
    ensures size > 0 ==> (Served(bs, top, size), Granted(bs, size)) !in Live(bs)
    ensures Live(Serve(bs, top, size)) == Live(bs) + {(Served(bs, top, size), Granted(bs, size))}
  {
    var k := FirstFit(bs, 0, size);
    forall i | 0 <= i < |bs|
      ensures i < k ==> bs[i].End() <= (if k < |bs| then bs[k].at else top)
      ensures i > k ==> bs[k].End() <= bs[i].at
    {
      if i < k < |bs| {
        InOrder(bs, lo, top, i, k);
      } else if i < k {
        Bounds(bs, lo, top, i);
      } else if i > k {
        InOrder(bs, lo, top, k, i);
      }
    }
    LiveServe(bs, top, size);
  }

  lemma LiveConcat(bs: seq<Block>, cs: seq<Block>)
    ensures Live(bs + cs) == Live(bs) + Live(cs)
  {
    var ds := bs + cs;
    forall x | x in Live(cs) ensures x in Live(ds) {
      var i :| 0 <= i < |cs| && !cs[i].hole && x == (cs[i].Payload(), cs[i].size);
      assert ds[|bs| + i] == cs[i];
    }
    forall x | x in Live(bs) ensures x in Live(ds) {
      var i :| 0 <= i < |bs| && !bs[i].hole && x == (bs[i].Payload(), bs[i].size);
      assert ds[i] == bs[i];
    }
  }

  lemma LiveOne(b: Block)
    ensures Live([b]) == if b.hole then {} else {(b.Payload(), b.size)}
  {
    assert [b][0] == b;
  }

  /** Replacing the hole at `k` by a used block, and perhaps a hole, adds one live payload. */
  lemma LiveReplace(bs: seq<Block>, k: nat, used: Block, rest: seq<Block>)
    requires k < |bs| && bs[k].hole && !used.hole && Live(rest) == {}
    ensures Live(bs[..k] + ([used] + rest) + bs[k + 1..]) == Live(bs) + {(used.Payload(), used.size)}
  {
    hide Live;
    assert bs == bs[..k] + [bs[k]] + bs[k + 1..];
    LiveConcat(bs[..k], [bs[k]]);
    LiveConcat(bs[..k] + [bs[k]], bs[k + 1..]);
    LiveConcat(bs[..k], [used] + rest);
    LiveConcat(bs[..k] + ([used] + rest), bs[k + 1..]);
    LiveConcat([used], rest);
    LiveOne(bs[k]);
    LiveOne(used);
  }

  lemma LiveServe(bs: seq<Block>, top: nat, size: nat)
    requires Safe(bs, size)
    ensures Live(Serve(bs, top, size)) == Live(bs) + {(Served(bs, top, size), Granted(bs, size))}
  {
    hide Live;
    var k, cs := FirstFit(bs, 0, size), Serve(bs, top, size);
    if k == |bs| {
      LiveConcat(bs, [Block(top, false, size)]);
      LiveOne(Block(top, false, size));
    } else {
      var used := Block(bs[k].at, false, Granted(bs, size));
      var rest := if bs[k].size < size + 40 then [] else [Block(bs[k].at + 20 + size, true, bs[k].size - 20 - size)];
      LiveNothing(rest);
      LiveReplace(bs, k, used, rest);
      assert cs == bs[..k] + ([used] + rest) + bs[k + 1..];
    }
  }

  lemma LiveNothing(bs: seq<Block>)
    requires forall i :: 0 <= i < |bs| ==> bs[i].hole
    ensures Live(bs) == {}
  {
  }

  // ------------------------------------------------------------ whole runs

  /** The list after a run of requests. */
  function Run(bs: seq<Block>, top: nat, sizes: seq<nat>): (seq<Block>, nat)
    decreases |sizes|
  {
    if sizes == [] then (bs, top) else Run(Serve(bs, top, sizes[0]), ServeTop(bs, top, sizes[0]), sizes[1..])
  }

  predicate SafeRun(bs: seq<Block>, top: nat, sizes: seq<nat>)
    decreases |sizes|
  {
    sizes == [] || (Safe(bs, sizes[0]) && SafeRun(Serve(bs, top, sizes[0]), ServeTop(bs, top, sizes[0]), sizes[1..]))
  }

  /** Every header of the run fits, with `n` the first page that is not mapped at its start. */
  predicate RunFits(n: nat, bs: seq<Block>, top: nat, sizes: seq<nat>)
    decreases |sizes|
  {
    sizes == [] || (Fits(n, bs, top, sizes[0])
                    && RunFits(Reach(n, bs, top, sizes[0]), Serve(bs, top, sizes[0]), ServeTop(bs, top, sizes[0]), sizes[1..]))
  }

  function RunReach(n: nat, bs: seq<Block>, top: nat, sizes: seq<nat>): nat
    decreases |sizes|
  {
    if sizes == [] then n
    else RunReach(Reach(n, bs, top, sizes[0]), Serve(bs, top, sizes[0]), ServeTop(bs, top, sizes[0]), sizes[1..])
  }

  /** A run that ends below the pages mapped at its start grows nothing, and all its headers fit. */
  lemma {:induction false} RunInside(n: nat, bs: seq<Block>, lo: nat, top: nat, sizes: seq<nat>)
    requires Tiled(bs, lo, top) && SafeRun(bs, top, sizes) && (forall i :: 0 <= i < |sizes| ==> sizes[i] > 0)
    requires Run(bs, top, sizes).1 <= n * 0x1000
    ensures RunFits(n, bs, top, sizes) && RunReach(n, bs, top, sizes) == n
    ensures sizes != [] && FirstFit(bs, 0, sizes[0]) == |bs| ==> (top + sizes[0]) / 0x1000 < n
    decreases |sizes|
  {
    hide FirstFit, Tiled, Safe, Serve;
    if sizes != [] {
      ServeTiles(bs, lo, top, sizes[0]);
      RunTiles(Serve(bs, top, sizes[0]), lo, ServeTop(bs, top, sizes[0]), sizes[1..]);
      RunInside(n, Serve(bs, top, sizes[0]), lo, ServeTop(bs, top, sizes[0]), sizes[1..]);
    }
  }

  /** Two payloads in use never overlap. */
  lemma LiveDisjoint(bs: seq<Block>, lo: nat, hi: nat, x: (nat, nat), y: (nat, nat))
    requires Tiled(bs, lo, hi) && x in Live(bs) && y in Live(bs) && x != y
    ensures x.0 + x.1 <= y.0 || y.0 + y.1 <= x.0
  {
    var i :| 0 <= i < |bs| && !bs[i].hole && x == (bs[i].Payload(), bs[i].size);
    var j :| 0 <= j < |bs| && !bs[j].hole && y == (bs[j].Payload(), bs[j].size);
    if i < j {
      InOrder(bs, lo, hi, i, j);
    } else {
      InOrder(bs, lo, hi, j, i);
    }
  }

  /** Every safe run keeps the tiling, adds up, never moves, shrinks or drops a live payload, and adds one for each request. */
  lemma {:induction false} RunTiles(bs: seq<Block>, lo: nat, top: nat, sizes: seq<nat>)
    requires Tiled(bs, lo, top) && SafeRun(bs, top, sizes) && (forall i :: 0 <= i < |sizes| ==> sizes[i] > 0)
    ensures var (cs, t) := Run(bs, top, sizes);
            && Tiled(cs, lo, t) && Total(cs) == t - lo && t >= top
            && Live(bs) <= Live(cs) && |Live(cs)| == |Live(bs)| + |sizes|
    decreases |sizes|
  {
    if sizes == [] {
      TotalIsExtent(bs, lo, top);
    } else {
      ServeTiles(bs, lo, top, sizes[0]);
      ServeFresh(bs, lo, top, sizes[0]);
      RunTiles(Serve(bs, top, sizes[0]), lo, ServeTop(bs, top, sizes[0]), sizes[1..]);
    }
  }

  // ------------------------------------------------- the split, word for word

  /** _split_hole on memory, in uint32_t arithmetic. */
  function Split(mem: map<u32, MBlock>, b: u32, size: u32): map<u32, MBlock>
    requires b in mem
  {
    var h := mem[b];
    if !h.hole then mem
    else if Sub32(h.size, Add32(size, 20)) < 20 then mem[b := h.(hole := false)]
    else
      var at := Add32(h.addr, size);
      mem[at := MBlock(true, Sub32(Sub32(h.size, 20), size), Add32(at, 20), h.next)]
         [b := MBlock(false, size, h.addr, at)]
  }

  /** Using a hole whole flips its flag in memory and in the list. */
  lemma SplitWhole(s: State, bs: seq<Block>, k: nat)
    requires Lists(s, bs) && k < |bs|
    ensures Linked(s.mem, bs, k)
    ensures Lists(s.(mem := s.mem[bs[k].at := s.mem[bs[k].at].(hole := false)]), bs[k := bs[k].(hole := false)])
  {
    assert Linked(s.mem, bs, k);
    var mem, cs := s.mem[bs[k].at := s.mem[bs[k].at].(hole := false)], bs[k := bs[k].(hole := false)];
    forall i | 0 <= i < |cs| ensures Linked(mem, cs, i) {
      assert Linked(s.mem, bs, i);
      if i < k {
        InOrder(bs, s.root, s.top, i, k);
      } else if i > k {
        InOrder(bs, s.root, s.top, k, i);
      }
    }
  }

  /** The two headers a split writes put a used block and a hole in the place of block `k`. */
  lemma SplitInTwo(s: State, bs: seq<Block>, k: nat, size: u32, cs: seq<Block>, mem: map<u32, MBlock>)
    requires Lists(s, bs) && k < |bs| - 1 && bs[k].size >= size + 40
    requires cs == bs[..k] + [Block(bs[k].at, false, size), Block(bs[k].at + 20 + size, true, bs[k].size - 20 - size)] + bs[k + 1..]
    requires Tiled(cs, s.root, s.top) && bs[k].End() < 0x1_0000_0000 && bs[k].at in s.mem
    requires mem == s.mem[bs[k].at + 20 + size := MBlock(true, bs[k].size - 20 - size, bs[k].at + 40 + size, bs[k + 1].at)]
                         [bs[k].at := MBlock(false, size, bs[k].at + 20, bs[k].at + 20 + size)]
    ensures Lists(s.(mem := mem), cs)
  {
    hide Tiled;
    forall i | 0 <= i < |cs| ensures Linked(mem, cs, i) {
      if i < k {
        assert Linked(s.mem, bs, i);
        InOrder(bs, s.root, s.top, i, k);
      } else if i > k + 1 {
        assert Linked(s.mem, bs, i - 1);
        InOrder(bs, s.root, s.top, k, i - 1);
      }
    }
  }

  lemma SplitsWhole(s: State, bs: seq<Block>, size: u32, k: nat)
    requires Lists(s, bs) && k < |bs| && bs[k].hole && size + 20 <= bs[k].size < size + 40
    ensures Linked(s.mem, bs, k)
    ensures Lists(s.(mem := Split(s.mem, bs[k].at, size)), bs[k := bs[k].(hole := false)])
  {
    SplitWhole(s, bs, k);
    hide Lists;
  }

  lemma SplitsInTwo(s: State, bs: seq<Block>, size: u32, k: nat, cs: seq<Block>)
    requires Lists(s, bs) && k < |bs| - 1 && bs[k].hole && size + 40 <= bs[k].size
    requires cs == bs[..k] + [Block(bs[k].at, false, size), Block(bs[k].at + 20 + size, true, bs[k].size - 20 - size)] + bs[k + 1..]
    ensures Linked(s.mem, bs, k)
    ensures Lists(s.(mem := Split(s.mem, bs[k].at, size)), cs)
  {
    hide Tiled;
    assert Linked(s.mem, bs, k);
    Bounds(bs, s.root, s.top, k);
    CutTiles(bs, s.root, s.top, k, cs[k], cs[k + 1], cs);
    hide Lists;
    SplitInTwo(s, bs, k, size, cs, Split(s.mem, bs[k].at, size));
  }

  lemma SafeFacts(bs: seq<Block>, top: nat, size: nat, k: nat)
    requires Safe(bs, size) && k == FirstFit(bs, 0, size) < |bs|
    ensures bs[k].hole && size + 20 <= bs[k].size && (size + 40 <= bs[k].size ==> k < |bs| - 1)
    ensures Serve(bs, top, size) ==
            if bs[k].size < size + 40 then bs[k := bs[k].(hole := false)]
            else bs[..k] + [Block(bs[k].at, false, size), Block(bs[k].at + 20 + size, true, bs[k].size - 20 - size)] + bs[k + 1..]
  {
    hide FirstFit;
  }

  /** On a safe request the split does to memory what Serve does to the list. */
  lemma SplitServes(s: State, bs: seq<Block>, size: u32, k: nat)
    requires Lists(s, bs) && Safe(bs, size) && k == FirstFit(bs, 0, size) < |bs|
    ensures Linked(s.mem, bs, k) && Lists(s.(mem := Split(s.mem, bs[k].at, size)), Serve(bs, s.top, size))
  {
    hide Lists, Tiled, FirstFit, Serve, Safe, Split, Linked;
    SafeFacts(bs, s.top, size, k);
    if bs[k].size < size + 40 {
      SplitsWhole(s, bs, size, k);
    } else {
      SplitsInTwo(s, bs, size, k, Serve(bs, s.top, size));
    }
  }

  /** Any list in the memory after a split follows the old one up to block `k`. */
  lemma {:induction false} SamePrefix(s: State, bs: seq<Block>, k: nat, size: u32, cs: seq<Block>, i: nat)
    requires Lists(s, bs) && i <= k < |bs| && Linked(s.mem, bs, k)
    requires Lists(s.(mem := Split(s.mem, bs[k].at, size)), cs)
    requires bs[k].Payload() + size < 0x1_0000_0000
    ensures i < |cs| && cs[i].at == bs[i].at
  {
    if i > 0 {
      SamePrefix(s, bs, k, size, cs, i - 1);
      assert Linked(s.mem, bs, i - 1);
      InOrder(bs, s.root, s.top, i - 1, k);
      assert Linked(Split(s.mem, bs[k].at, size), cs, i - 1);
      Bounds(bs, s.root, s.top, i);
    }
  }

  /** On an unsafe request no list in the memory after the split tiles the heap again. */
  lemma SplitBreaks(s: State, bs: seq<Block>, size: u32, k: nat, cs: seq<Block>)
    requires Lists(s, bs) && !Safe(bs, size) && k == FirstFit(bs, 0, size) < |bs|
    ensures Linked(s.mem, bs, k) && !Lists(s.(mem := Split(s.mem, bs[k].at, size)), cs)
  {
    assert Linked(s.mem, bs, k);
    Bounds(bs, s.root, s.top, k);
    var mem := Split(s.mem, bs[k].at, size);
    if Lists(s.(mem := mem), cs) {
      SamePrefix(s, bs, k, size, cs, k);
      assert Linked(mem, cs, k);
      assert k + 1 < |cs|;
      if bs[k].size < size + 20 {
        assert Linked(mem, cs, k + 1);
        Bounds(cs, s.root, s.top, k + 1);
      } else {
        InOrder(cs, s.root, s.top, k, |cs| - 1);
      }
    }
  }

  /** A request adds a block at the top, or splits one hole in two exactly when that is 40 bytes or more larger than asked for. */
  lemma ServeAddsIff(bs: seq<Block>, top: nat, size: nat)
    ensures var k := FirstFit(bs, 0, size);
            |Serve(bs, top, size)| == |bs| + if k == |bs| || bs[k].size >= size + 40 then 1 else 0
  {
  }

  /** Such a request exists: ten bytes from a hole of ten underflow the remainder test. */
  lemma UnsafeExample()
    ensures var bs := [Block(100, true, 10), Block(130, false, 1)];
            var s := State(map[100 := MBlock(true, 10, 120, 130), 130 := MBlock(false, 1, 150, 0)], 100, 130, 151);
            Lists(s, bs) && !Safe(bs, 10) && forall cs :: !Lists(s.(mem := Split(s.mem, 100, 10)), cs)
  {
    var bs := [Block(100, true, 10), Block(130, false, 1)];
    var s := State(map[100 := MBlock(true, 10, 120, 130), 130 := MBlock(false, 1, 150, 0)], 100, 130, 151);
    assert Linked(s.mem, bs, 0) && Linked(s.mem, bs, 1);
    forall cs ensures !Lists(s.(mem := Split(s.mem, 100, 10)), cs) {
      SplitBreaks(s, bs, 10, 0, cs);
    }
  }

  // ------------------------------------------------------- growing the heap

  /** malloc_top and the mapped limit kept in `heap`, after an append of `size` bytes with frames at hand. */
  datatype Extent = Extent(top: nat, heap: nat)

  function Append(e: Extent, size: nat): Extent {
    var limit := (e.top + size) / 0x1000 * 0x1000 + 0x1000;
    Extent(e.top + 20 + size, if e.top + size + 20 > e.heap then limit else e.heap)
  }

  function Appends(e: Extent, sizes: seq<nat>): Extent
    decreases |sizes|
  {
    if sizes == [] then e else Appends(Append(e, sizes[0]), sizes[1..])
  }

  /** The limit asked for leaves the header out: a block passes it exactly when its last bytes cross the page. */
  lemma AppendPassesIff(e: Extent, size: nat)
    ensures Append(e, size).top > Append(e, size).heap <==>
            e.top + size + 20 > e.heap && (e.top + size) % 0x1000 + 20 > 0x1000
    ensures Append(e, size).top < Append(e, size).heap + 20
  {
    var x := e.top + size;
    assert x == x / 0x1000 * 0x1000 + x % 0x1000;
  }

  /** The new header itself passes the limit exactly when the heap had to grow and the header crosses into a later page than asked for. */
  lemma HeaderPassesIff(e: Extent, size: nat)
    requires e.heap % 0x1000 == 0
    ensures e.top + 20 > Append(e, size).heap <==>
            e.top + size + 20 > e.heap && (e.top + 19) / 0x1000 > (e.top + size) / 0x1000
  {
    var x := e.top + size;
    assert x == x / 0x1000 * 0x1000 + x % 0x1000;
  }

  /** A request of twelve bytes, sixteen bytes below the limit: the last word of its header lies past the mapped pages. */
  lemma HeaderPassesExample()
    ensures var e := Extent(0xC040_0FF0, 0xC040_1000); Append(e, 12).heap == e.heap < e.top + 20
  {
  }

  /** The first page that is not mapped, after a request that found it to be `n`. */
  function Reach(n: nat, bs: seq<Block>, top: nat, size: nat): (r: nat)
    ensures r >= n
  {
    if FirstFit(bs, 0, size) == |bs| && (top + size) / 0x1000 >= n then (top + size) / 0x1000 + 1 else n
  }

  /** The request's header lies below the first page that is not mapped by then, so that storing it does not fault. */
  predicate Fits(n: nat, bs: seq<Block>, top: nat, size: nat) {
    FirstFit(bs, 0, size) < |bs| || (top + 19) / 0x1000 < Reach(n, bs, top, size)
  }

  /** Where `heap` is the end of the mapped pages, that is what HeaderPassesIff says. */
  lemma FitsIff(n: nat, bs: seq<Block>, top: nat, size: nat)
    requires FirstFit(bs, 0, size) == |bs|
    ensures Fits(n, bs, top, size) <==> !(top + size + 20 > n * 0x1000 && (top + 19) / 0x1000 > (top + size) / 0x1000)
  {
    hide FirstFit;
  }

  /** After every run of appends, from any start, at most 19 bytes lie past the mapped limit. */
  lemma {:induction false} AppendsBounded(e: Extent, sizes: seq<nat>)
    requires sizes != [] || e.top < e.heap + 20
    ensures Appends(e, sizes).top < Appends(e, sizes).heap + 20
    decreases |sizes|
  {
    if sizes != [] {
      AppendPassesIff(e, sizes[0]);
      AppendsBounded(Append(e, sizes[0]), sizes[1..]);
    }
  }

  /** The bound is reached: a block can end 19 bytes past the last mapped page. */
  lemma AppendReaches19()
    ensures Append(Extent(0xC040_0000, 0xC040_0000), 0xFFF) == Extent(0xC040_1013, 0xC040_1000)
  {
  }

  predicate Disjoint(a: nat, n: nat, b: nat, m: nat) { a + n <= b || b + m <= a }

  /** Some live payload starts at `a` and has `n` bytes or more. */
  ghost predicate Owns(bs: seq<Block>, a: nat, n: nat) {
    exists m: nat :: m >= n && (a, m) in Live(bs)
  }

  lemma OwnsLive(bs: seq<Block>)
    ensures forall x :: x in Live(bs) ==> Owns(bs, x.0, x.1)
  {
    forall x | x in Live(bs) ensures Owns(bs, x.0, x.1) {
      assert (x.0, x.1) in Live(bs);
    }
  }

  lemma ListsTiled(s: State, bs: seq<Block>)
    requires Lists(s, bs)
    ensures Tiled(bs, s.root, s.top)
  {
  }

  /** What a request returns is apart from all that was owned, and adds to it. */
  lemma NewPayload(lo: nat, bs: seq<Block>, top: nat, size: nat)
    requires Tiled(bs, lo, top) && Safe(bs, size) && size > 0
    ensures Owns(Serve(bs, top, size), Served(bs, top, size), size) && Live(bs) <= Live(Serve(bs, top, size))
    ensures forall a: nat, n: nat :: Owns(bs, a, n) ==> Owns(Serve(bs, top, size), a, n)
    ensures forall a: nat, n: nat :: Owns(bs, a, n) ==>
              Disjoint(a, n, Served(bs, top, size), size) && Disjoint(Served(bs, top, size), size, a, n)
  {
    ServeFresh(bs, lo, top, size);
    hide Serve, Safe, Served, Tiled;
    var b, g := Served(bs, top, size), Granted(bs, size);
    assert (b, g) in Live(Serve(bs, top, size));
    forall a: nat, n: nat | Owns(bs, a, n)
      ensures Owns(Serve(bs, top, size), a, n) && Disjoint(a, n, b, size) && Disjoint(b, size, a, n)
    {
      var m: nat :| m >= n && (a, m) in Live(bs);
      assert (a, m) in Live(Serve(bs, top, size));
      var i :| 0 <= i < |bs| && !bs[i].hole && (a, m) == (bs[i].Payload(), bs[i].size);
    }
  }

  /** What was in use in `bs` and what the requests so far returned is in use in `cs`, all of it apart. */
  ghost predicate Placed(bs: seq<Block>, cs: seq<Block>, addrs: seq<nat>, sizes: seq<nat>) {
    && |addrs| <= |sizes| && Live(bs) <= Live(cs)
    && (forall j :: 0 <= j < |addrs| ==> Owns(cs, addrs[j], sizes[j]))
    && (forall j, k :: 0 <= j < k < |addrs| ==> Disjoint(addrs[j], sizes[j], addrs[k], sizes[k]))
    && (forall j, x :: 0 <= j < |addrs| && x in Live(bs) ==> Disjoint(addrs[j], sizes[j], x.0, x.1))
  }

  lemma PlacedStart(bs: seq<Block>, sizes: seq<nat>)
    ensures Placed(bs, bs, [], sizes)
  {
  }

  lemma PlacedNext(lo: nat, bs: seq<Block>, cs: seq<Block>, top: nat, addrs: seq<nat>, sizes: seq<nat>)
    requires Placed(bs, cs, addrs, sizes) && |addrs| < |sizes|
    requires Tiled(cs, lo, top) && Safe(cs, sizes[|addrs|]) && sizes[|addrs|] > 0
    ensures Placed(bs, Serve(cs, top, sizes[|addrs|]), addrs + [Served(cs, top, sizes[|addrs|])], sizes)
  {
    hide Tiled, Safe, Serve, Served, Disjoint, Owns;
    NewPayload(lo, cs, top, sizes[|addrs|]);
    OwnsLive(cs);
    forall x | x in Live(bs) ensures Owns(cs, x.0, x.1) {
      assert x in Live(cs);
    }
  }

  lemma PlacedLive(bs: seq<Block>, cs: seq<Block>, addrs: seq<nat>, sizes: seq<nat>)
    requires Placed(bs, cs, addrs, sizes)
    ensures Live(bs) <= Live(cs)
  {
  }

  lemma PlacedApart(bs: seq<Block>, cs: seq<Block>, addrs: seq<nat>, sizes: seq<nat>)
    requires Placed(bs, cs, addrs, sizes)
    ensures |addrs| <= |sizes|
    ensures forall j, k :: 0 <= j < k < |addrs| ==> Disjoint(addrs[j], sizes[j], addrs[k], sizes[k])
    ensures forall j, x :: 0 <= j < |addrs| && x in Live(bs) ==> Disjoint(addrs[j], sizes[j], x.0, x.1)
  {
  }

  lemma RunNone(bs: seq<Block>, top: nat)
    ensures Run(bs, top, []) == (bs, top)
  {
  }

  /** The first request of a safe run, and the rest of the run after it. */
  lemma RunStep(s: State, bs: seq<Block>, sizes: seq<u32>)
    requires Lists(s, bs) && sizes != [] && SafeRun(bs, s.top, sizes) && (forall i :: 0 <= i < |sizes| ==> sizes[i] > 0)
    ensures Safe(bs, sizes[0]) && SafeRun(Serve(bs, s.top, sizes[0]), ServeTop(bs, s.top, sizes[0]), sizes[1..])
    ensures Run(Serve(bs, s.top, sizes[0]), ServeTop(bs, s.top, sizes[0]), sizes[1..]) == Run(bs, s.top, sizes)
    ensures ServeTop(bs, s.top, sizes[0]) <= Run(bs, s.top, sizes).1
  {
    ServeTiles(bs, s.root, s.top, sizes[0]);
    RunTiles(Serve(bs, s.top, sizes[0]), s.root, ServeTop(bs, s.top, sizes[0]), sizes[1..]);
  }

  lemma TopMoves(bs: seq<Block>, top: nat, size: nat, e: Extent)
    requires e.top == top
    ensures FirstFit(bs, 0, size) == |bs| ==> Append(e, size).top == ServeTop(bs, top, size) && ServeTop(bs, top, size) > top
    ensures FirstFit(bs, 0, size) < |bs| ==> ServeTop(bs, top, size) == top
  {
  }

  /** What a request served from hole `k` returns and leaves. */
  lemma HoleServed(s: State, bs: seq<Block>, size: u32, k: nat)
    requires Lists(s, bs) && k == FirstFit(bs, 0, size) < |bs|
    ensures bs[k].at in s.mem && bs[k].at in Split(s.mem, bs[k].at, size)
    ensures Split(s.mem, bs[k].at, size)[bs[k].at].addr == Served(bs, s.top, size)
    ensures ServeTop(bs, s.top, size) == s.top
    ensures Safe(bs, size) ==> Lists(s.(mem := Split(s.mem, bs[k].at, size)), Serve(bs, s.top, size))
    ensures !Safe(bs, size) ==> forall cs :: !Lists(s.(mem := Split(s.mem, bs[k].at, size)), cs)
  {
    assert Linked(s.mem, bs, k);
    hide Lists;
    if Safe(bs, size) {
      SplitServes(s, bs, size, k);
    } else {
      forall cs ensures !Lists(s.(mem := Split(s.mem, bs[k].at, size)), cs) {
        SplitBreaks(s, bs, size, k, cs);
      }
    }
  }

  lemma HeadersPositive(s: State, bs: seq<Block>, k: nat)
    requires Lists(s, bs)
    ensures k < |bs| ==> bs[k].at > 0
  {
    Start(s, bs);
  }

  lemma ServedByAppend(bs: seq<Block>, top: nat, size: nat)
    requires FirstFit(bs, 0, size) == |bs|
    ensures Safe(bs, size) && Serve(bs, top, size) == bs + [Block(top, false, size)] && ServeTop(bs, top, size) == top + 20 + size
  {
  }

  /** An append to the list, as malloc writes it. */
  function AppendState(s: State, size: u32): State
    requires s.last in s.mem && s.top + size + 20 < 0x1_0000_0000
  {
    s.(mem := s.mem[s.top := MBlock(false, size, s.top + 20, 0)][s.last := s.mem[s.last].(next := s.top)],
       last := s.top, top := s.top + 20 + size)
  }

  lemma AppendLists(s: State, bs: seq<Block>, size: u32)
    requires Lists(s, bs) && s.top + size + 20 < 0x1_0000_0000
    ensures s.last in s.mem && s.last < s.top
    ensures Lists(AppendState(s, size), bs + [Block(s.top, false, size)]) && AppendState(s, size).top == s.top + 20 + size
  {
    var n := |bs| - 1;
    assert Linked(s.mem, bs, n);
    Bounds(bs, s.root, s.top, n);
    var t, cs := AppendState(s, size), bs + [Block(s.top, false, size)];
    forall i | 0 <= i < |cs| ensures Linked(t.mem, cs, i) {
      if i < n {
        assert Linked(s.mem, bs, i);
        InOrder(bs, s.root, s.top, i, n);
      }
    }
  }

  lemma Start(s: State, bs: seq<Block>)
    requires Lists(s, bs)
    ensures |bs| > 0 && s.root == bs[0].at && forall i :: 0 <= i < |bs| ==> bs[i].at > 0
  {
    forall i | 0 <= i < |bs| ensures bs[i].at > 0 {
      Bounds(bs, s.root, s.top, i);
    }
  }

  // --------------------------------------------- what lies behind the last block

  /** free does nothing, so no block ever becomes a hole. */
  ghost predicate NoHoles(bs: seq<Block>) {
    forall i :: 0 <= i < |bs| ==> !bs[i].hole
  }

  /** Without holes every request is an append at malloc_top, and leaves no hole. */
  lemma NoHolesAppends(bs: seq<Block>, top: nat, size: nat)
    requires NoHoles(bs)
    ensures FirstFit(bs, 0, size) == |bs| && Served(bs, top, size) == top + 20 && ServeTop(bs, top, size) == top + 20 + size
    ensures Serve(bs, top, size) == bs + [Block(top, false, size)] && NoHoles(Serve(bs, top, size))
  {
    hide FirstFit;
  }

  const MBLOCK_MAGIC: u32 := 0xF428_3F30

  /** The words of a header in the order of the struct. */
  function HeaderWords(b: MBlock): seq<u32> { [MBLOCK_MAGIC, if b.hole then 1 else 0, b.size, b.addr, b.next] }

  /**
   An array of `n` words that malloc returned last reaches up to malloc_top: the word at index n lies behind its
   block. The next request, of whatever size, puts a header exactly there, so that word becomes the magic number
   and the one after it zero.
   */
  lemma NextBlockBehind(s: State, bs: seq<Block>, n: nat, size: u32)
    requires Lists(s, bs) && NoHoles(bs) && s.top + 40 + 4 * n + size < 0x1_0000_0000
    ensures s.last in s.mem && var t, p := AppendState(s, 4 * n), Served(bs, s.top, 4 * n);
            && t.last in t.mem && p + 4 * n == t.top
            && var u := AppendState(t, size);
               && p + 4 * n in u.mem && HeaderWords(u.mem[p + 4 * n])[..2] == [MBLOCK_MAGIC, 0]
               && MBLOCK_MAGIC != 0
  {
    hide Lists;
    NoHolesAppends(bs, s.top, 4 * n);
    AppendLists(s, bs, 4 * n);
    var t := AppendState(s, 4 * n);
    AppendLists(t, bs + [Block(s.top, false, 4 * n)], size);
  }
}
