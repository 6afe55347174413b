/**
 The physical frame allocator of kernel/memory/frame.c: one byte of bitmap for
 every eight frames, a free counter and a roving start index.

 Two details of the C code shape everything below. Marking a frame assigns the
 whole byte of its group, and the scan tests the byte with a logical `&&`, so a
 group with any bit set counts as full. And a scan that finds nothing resets
 the index and calls itself again, whatever it has seen.

 Addresses given to and taken from the allocator are multiples of FRAME_SIZE
 (0x1000); the model names them by frame number, so 0 is also the C NULL that
 frame_get returns when the counter is zero.
 */
module Frames {
  import opened Machine

  const BITMAP_SIZE := 0x2_0000
  const MAX_FRAMES := 0x10_0000

  /** `1 << k`, as a byte. */
  function Bit(k: nat): (b: bv8)
    requires k < 8
    ensures b != 0 && b & !b == 0
  {
    if k == 0 then 1 else if k == 1 then 2 else if k == 2 then 4 else if k == 3 then 8
    else if k == 4 then 16 else if k == 5 then 32 else if k == 6 then 64 else 128
  }

  /** The table above is the shift. */
  lemma BitIsShift(k: nat)
    requires k < 8
    ensures Bit(k) == (1 as bv8) << k
  {
    if k < 4 {
      if k < 2 { assert k == 0 || k == 1; } else { assert k == 2 || k == 3; }
    } else {
      if k < 6 { assert k == 4 || k == 5; } else { assert k == 6 || k == 7; }
    }
  }

  /** The group byte that marks frame `f` alone. */
  function Mark(f: nat): (b: bv8)
    ensures b != 0 && b & !b == 0
  {
    Bit(f % 8)
  }

  function Group(f: nat): nat { f / 8 }

  /** The bitmap and its two counters; the roving index is kept beside them. */
  datatype State = State(bits: seq<bv8>, count: nat, free: nat) {
    predicate WellSized() { |bits| == BITMAP_SIZE && count < MAX_FRAMES }
  }

  /** The first frame at or above `from` whose group byte is zero; `count` when there is none. */
  ghost function FirstFree(bits: seq<bv8>, from: nat, count: nat): (i: nat)
    requires |bits| == BITMAP_SIZE && count < MAX_FRAMES
    ensures i < count ==> from <= i && bits[Group(i)] == 0
    ensures forall j :: from <= j < i && j < count ==> bits[Group(j)] != 0
    ensures i <= count
    decreases count - from
  {
    if from >= count then count
    else if bits[Group(from)] == 0 then from
    else FirstFree(bits, from + 1, count)
  }

  /** frame_set. */
  ghost function Take(s: State, i: nat): State
    requires s.WellSized() && i < s.count && s.free > 0
  {
    s.(bits := s.bits[Group(i) := Mark(i)], free := s.free - 1)
  }

  /** What frame_get leaves behind: the frame it returns, the bitmap and the index. */
  datatype Outcome = Outcome(frame: nat, state: State, idx: nat)

  /** frame_get with at most `depth` nested activations; None when they do not suffice. */
  ghost function GetRec(s: State, idx: nat, depth: nat): Option<Outcome>
    requires s.WellSized()
    decreases depth
  {
    if depth == 0 then None
    else if s.free == 0 then Some(Outcome(0, s, idx))
    else
      var i := FirstFree(s.bits, idx, s.count);
      if i < s.count then Some(Outcome(i, Take(s, i), idx + 1))
      else GetRec(s, 0, depth - 1)
  }

  /** Some group that contains a frame below `count` is wholly free. */
  ghost predicate HasFreeGroup(s: State)
    requires s.WellSized()
  {
    exists i: nat :: i < s.count && s.bits[Group(i)] == 0
  }

  ghost predicate Busy(S: set<nat>, g: nat) {
    exists f :: f in S && Group(f) == g
  }

  /** The free counter is conserved: what is neither reserved nor held is free. */
  ghost predicate Counts(s: State, R: set<nat>, H: set<nat>) {
    && s.WellSized()
    && R !! H
    && (forall f :: f in R || f in H ==> f < s.count)
    && s.free + |R| + |H| == s.count
  }

  /** A group byte is zero exactly when the group has no reserved or held frame. */
  ghost predicate Bytes(s: State, R: set<nat>, H: set<nat>)
    requires s.WellSized()
  {
    forall g: nat :: g < BITMAP_SIZE ==> (s.bits[g] != 0 <==> Busy(R, g) || Busy(H, g))
  }

  /** A held frame is alone in its group, whose byte is exactly its bit. */
  ghost predicate Alone(s: State, R: set<nat>, H: set<nat>)
    requires Counts(s, R, H)
  {
    && (forall f :: f in H ==> s.bits[Group(f)] == Mark(f))
    && (forall f, e :: f in H && e in H && Group(f) == Group(e) ==> f == e)
    && (forall f :: f in H ==> !Busy(R, Group(f)))
  }

  /** What every run keeps, with `R` the reserved and `H` the held frames. */
  ghost predicate Inv(s: State, R: set<nat>, H: set<nat>) {
    Counts(s, R, H) && Bytes(s, R, H) && Alone(s, R, H)
  }

  lemma InvFacts(s: State, R: set<nat>, H: set<nat>)
    requires Inv(s, R, H)
    ensures s.WellSized() && R !! H
  {
  }

  // ---------------------------------------------------------------- frame_get

  /** The call returns iff the counter is zero or some group is wholly free, and then one restart is enough. */
  lemma GetReturnsIff(s: State, idx: nat)
    requires s.WellSized()
    ensures (exists depth :: GetRec(s, idx, depth).Some?) <==> s.free == 0 || HasFreeGroup(s)
    ensures s.free == 0 || HasFreeGroup(s) ==> GetRec(s, idx, 2).Some?
  {
    if s.free == 0 {
      assert GetRec(s, idx, 1).Some?;
    } else if HasFreeGroup(s) {
      assert FirstFree(s.bits, 0, s.count) < s.count;
      assert GetRec(s, 0, 1).Some?;
      assert GetRec(s, idx, 2).Some?;
    } else {
      forall depth: nat ensures GetRec(s, idx, depth).None? {
        GetHangs(s, idx, depth);
      }
    }
  }

  lemma {:induction false} GetHangs(s: State, idx: nat, depth: nat)
    requires s.WellSized() && s.free > 0 && !HasFreeGroup(s)
    ensures GetRec(s, idx, depth).None?
    decreases depth
  {
    if depth > 0 {
      assert FirstFree(s.bits, idx, s.count) == s.count;
      GetHangs(s, 0, depth - 1);
    }
  }

  /** What a call did: nothing when no frame was free, else it took a frame that nobody had. */
  ghost predicate Got(s: State, R: set<nat>, H: set<nat>, o: Outcome) {
    if s.free == 0 then o.frame == 0 && o.state == s
    else o.frame < s.count && o.frame !in R && o.frame !in H && Inv(o.state, R, H + {o.frame})
  }

  /** A frame that frame_get hands out was neither held nor reserved, and taking it keeps the invariant. */
  lemma {:induction false} GetKeeps(s: State, idx: nat, R: set<nat>, H: set<nat>, depth: nat)
    requires Inv(s, R, H) && GetRec(s, idx, depth).Some?
    ensures Got(s, R, H, GetRec(s, idx, depth).value)
    decreases depth
  {
    hide Bytes, Alone;
    if s.free > 0 {
      var i := FirstFree(s.bits, idx, s.count);
      if i < s.count {
        TakeKeeps(s, R, H, i);
      } else {
        GetKeeps(s, 0, R, H, depth - 1);
      }
    }
  }

  lemma TakeKeeps(s: State, R: set<nat>, H: set<nat>, i: nat)
    requires Inv(s, R, H) && i < s.count && s.bits[Group(i)] == 0 && s.free > 0
    ensures i !in R && i !in H && Inv(Take(s, i), R, H + {i})
  {
    assert !Busy(R, Group(i)) && !Busy(H, Group(i));
    TakeBytes(s, R, H, i);
    TakeAlone(s, R, H, i);
  }

  lemma TakeBytes(s: State, R: set<nat>, H: set<nat>, i: nat)
    requires s.WellSized() && Bytes(s, R, H) && i < s.count && s.free > 0
    ensures Bytes(Take(s, i), R, H + {i})
  {
    BusyAdd(H, i);
  }

  lemma TakeAlone(s: State, R: set<nat>, H: set<nat>, i: nat)
    requires Inv(s, R, H) && i < s.count && s.bits[Group(i)] == 0 && s.free > 0
    requires Counts(Take(s, i), R, H + {i})
    ensures Alone(Take(s, i), R, H + {i})
  {
    assert !Busy(R, Group(i)) && !Busy(H, Group(i));
  }

  lemma BusyAdd(S: set<nat>, i: nat)
    ensures forall g: nat :: Busy(S + {i}, g) <==> Busy(S, g) || g == Group(i)
  {
    forall g: nat ensures Busy(S + {i}, g) <==> Busy(S, g) || g == Group(i) {
      if Busy(S, g) {
        var f :| f in S && Group(f) == g;
        assert f in S + {i};
      }
      if g == Group(i) {
        assert i in S + {i};
      }
    }
  }

  // ------------------------------------------------- which frame it is

  /** Frame `i` is the least one from `from` on whose group byte is zero. */
  ghost predicate Least(bits: seq<bv8>, from: nat, count: nat, i: nat) {
    && from <= i < count && Group(i) < |bits| && bits[Group(i)] == 0
    && forall j: nat :: from <= j < i && Group(j) < |bits| ==> bits[Group(j)] != 0
  }

  ghost predicate NoneFrom(bits: seq<bv8>, from: nat, count: nat) {
    forall j: nat :: from <= j < count && Group(j) < |bits| ==> bits[Group(j)] != 0
  }

  /**
   What a call with the counter above zero answers, from index `idx`: the least frame of a free group at or above the
   index, leaving the index one up; or, where there is none, the least of all, leaving the index at one.
   */
  ghost predicate Answers(s: State, idx: nat, frame: nat, idx': nat) {
    if NoneFrom(s.bits, idx, s.count) then Least(s.bits, 0, s.count, frame) && idx' == 1
    else Least(s.bits, idx, s.count, frame) && idx' == idx + 1
  }

  lemma {:induction false} GetAnswers(s: State, idx: nat, depth: nat)
    requires s.WellSized() && s.free > 0 && GetRec(s, idx, depth).Some?
    ensures var o := GetRec(s, idx, depth).value; Answers(s, idx, o.frame, o.idx)
    decreases depth
  {
    var i := FirstFree(s.bits, idx, s.count);
    if i < s.count {
      assert !NoneFrom(s.bits, idx, s.count);
    } else {
      assert NoneFrom(s.bits, idx, s.count);
      GetAnswers(s, 0, depth - 1);
      NoneHangs(s, depth - 1);
    }
  }

  lemma NoneHangs(s: State, depth: nat)
    requires s.WellSized() && s.free > 0
    ensures NoneFrom(s.bits, 0, s.count) ==> GetRec(s, 0, depth).None?
  {
    if NoneFrom(s.bits, 0, s.count) {
      GetHangs(s, 0, depth);
    }
  }

  /** When frame 0 is reserved, the NULL result means exactly that the counter was zero. */
  lemma GetZeroMeansNone(s: State, idx: nat, R: set<nat>, H: set<nat>, depth: nat)
    requires Inv(s, R, H) && 0 in R && GetRec(s, idx, depth).Some?
    ensures GetRec(s, idx, depth).value.frame == 0 <==> s.free == 0
  {
    GetKeeps(s, idx, R, H, depth);
  }

  // --------------------------------------------------------------- frame_free

  ghost function Release(s: State, f: nat): State
    requires s.WellSized() && f < MAX_FRAMES
  {
    if f > s.count then s
    else s.(bits := s.bits[Group(f) := s.bits[Group(f)] & !Mark(f)], free := if s.free + 1 < 0x1_0000_0000 then s.free + 1 else 0)
  }

  /** frame_free changes something exactly for frames up to and including the one behind the last. */
  lemma ReleaseCounts(s: State, f: nat)
    requires s.WellSized() && f < MAX_FRAMES && s.free < 0xFFFF_FFFF
    ensures Release(s, f).free == (if f <= s.count then s.free + 1 else s.free)
    ensures f > s.count ==> Release(s, f) == s
    ensures f <= s.count ==> Release(s, f).bits[Group(f)] & Mark(f) == 0
  {
  }

  lemma ReleaseKeeps(s: State, R: set<nat>, H: set<nat>, f: nat)
    requires Inv(s, R, H) && f in H
    ensures Inv(Release(s, f), R, H - {f})
  {
    assert Busy(H, Group(f));
    ReleaseBytes(s, R, H, f);
  }

  lemma ReleaseBytes(s: State, R: set<nat>, H: set<nat>, f: nat)
    requires Inv(s, R, H) && f in H
    ensures Bytes(Release(s, f), R, H - {f})
  {
    var H' := H - {f};
    assert H == H' + {f};
    BusyAdd(H', f);
    assert !Busy(H', Group(f)) && !Busy(R, Group(f));
  }

  // --------------------------------------------------------------- whole runs

  /** A request to the allocator: a frame, or the return of a held frame. */
  datatype Op = Get | Free(frame: nat)

  /** The state after a list of requests; None once a request hangs or frees a frame not held. */
  ghost function Run(s: State, idx: nat, H: set<nat>, ops: seq<Op>): Option<(State, set<nat>)>
    requires s.WellSized()
    decreases |ops|
  {
    if ops == [] then Some((s, H))
    else match ops[0]
      case Get =>
        var r := GetRec(s, idx, 2);
        if r.None? || !r.value.state.WellSized() then None
        else if s.free == 0 then Run(s, idx, H, ops[1..])
        else Run(r.value.state, r.value.idx, H + {r.value.frame}, ops[1..])
      case Free(f) =>
        if f !in H || f >= MAX_FRAMES then None else Run(Release(s, f), idx, H - {f}, ops[1..])
  }

  /** Every run keeps the invariant, so no request is ever answered with a frame already given out. */
  lemma {:induction false} RunKeeps(s: State, idx: nat, R: set<nat>, H: set<nat>, ops: seq<Op>)
    requires Inv(s, R, H) && Run(s, idx, H, ops).Some?
    ensures Inv(Run(s, idx, H, ops).value.0, R, Run(s, idx, H, ops).value.1)
    decreases |ops|
  {
    if ops != [] {
      match ops[0]
      case Get =>
        GetKeeps(s, idx, R, H, 2);
        if s.free == 0 {
          RunKeeps(s, idx, R, H, ops[1..]);
        } else {
          var o := GetRec(s, idx, 2).value;
          RunKeeps(o.state, o.idx, R, H + {o.frame}, ops[1..]);
        }
      case Free(f) =>
        ReleaseKeeps(s, R, H, f);
        RunKeeps(Release(s, f), idx, R, H - {f}, ops[1..]);
    }
  }

  /** The frames [lo, lo + n). */
  ghost function Interval(lo: nat, n: nat): (S: set<nat>)
    ensures forall f :: f in S <==> lo <= f < lo + n
    ensures |S| == n
  {
    if n == 0 then {} else Interval(lo, n - 1) + {lo + n - 1}
  }

  lemma IntervalNext(lo: nat, n: nat)
    ensures Interval(lo, n + 1) == Interval(lo, n) + {lo + n}
  {
  }

  /** Sets of frames that lie in distinct groups of an interval are no larger than the interval. */
  lemma {:induction false} AtMostOnePerGroup(H: set<nat>, lo: nat, hi: nat)
    requires lo <= hi
    requires forall f :: f in H ==> lo <= Group(f) < hi
    requires forall f, e :: f in H && e in H && Group(f) == Group(e) ==> f == e
    ensures |H| <= hi - lo
    decreases hi - lo
  {
    if H != {} {
      var h :| h in H;
      assert lo < hi;
      if exists f :: f in H && Group(f) == hi - 1 {
        var f :| f in H && Group(f) == hi - 1;
        AtMostOnePerGroup(H - {f}, lo, hi - 1);
      } else {
        AtMostOnePerGroup(H, lo, hi - 1);
      }
    }
  }

  /**
   Running out is almost never reported. With frames [0, r) reserved, the free
   counter can reach zero only on a machine with at most one unreserved frame;
   on every other machine frame_get, once the groups are used up, never returns.
   */
  lemma ExhaustionHangs(s: State, r: nat, H: set<nat>)
    requires Inv(s, Interval(0, r), H) && s.count - r >= 2
    ensures s.free > 0
    ensures !HasFreeGroup(s) ==> forall idx: nat, depth: nat :: GetRec(s, idx, depth).None?
  {
    var lo, hi := (r + 7) / 8, (s.count + 7) / 8;
    forall f | f in H ensures lo <= Group(f) < hi {
      var first := 8 * Group(f);
      assert Group(first) == Group(f) && first !in Interval(0, r);
    }
    AtMostOnePerGroup(H, lo, hi);
    if !HasFreeGroup(s) {
      forall idx: nat, depth: nat ensures GetRec(s, idx, depth).None? {
        GetHangs(s, idx, depth);
      }
    }
  }

  // ------------------------------------------------- how many frames there are

  /** How many of the groups [g, hi) are wholly free. */
  function FreeGroups(bits: seq<bv8>, g: nat, hi: nat): nat
    requires g <= hi <= |bits|
    decreases hi - g
  {
    if g == hi then 0 else (if bits[g] == 0 then 1 else 0) + FreeGroups(bits, g + 1, hi)
  }

  function Groups(count: nat): nat { (count + 7) / 8 }

  lemma {:induction false} FreeGroupsNone(bits: seq<bv8>, g: nat, hi: nat)
    requires g <= hi <= |bits|
    ensures FreeGroups(bits, g, hi) == 0 <==> forall k :: g <= k < hi ==> bits[k] != 0
    decreases hi - g
  {
    if g < hi {
      FreeGroupsNone(bits, g + 1, hi);
    }
  }

  /** Marking a free group makes one fewer. */
  lemma {:induction false} FreeGroupsTake(bits: seq<bv8>, g: nat, hi: nat, k: nat, b: bv8)
    requires g <= k < hi <= |bits| && bits[k] == 0 && b != 0
    ensures FreeGroups(bits[k := b], g, hi) == FreeGroups(bits, g, hi) - 1
    decreases hi - g
  {
    if g < k {
      FreeGroupsTake(bits, g + 1, hi, k, b);
    } else {
      FreeGroupsSame(bits, bits[k := b], g + 1, hi);
    }
  }

  lemma {:induction false} FreeGroupsSame(a: seq<bv8>, b: seq<bv8>, g: nat, hi: nat)
    requires g <= hi <= |a| && hi <= |b| && forall k :: g <= k < hi ==> a[k] == b[k]
    ensures FreeGroups(a, g, hi) == FreeGroups(b, g, hi)
    decreases hi - g
  {
    if g < hi {
      FreeGroupsSame(a, b, g + 1, hi);
    }
  }

  lemma {:induction false} FreeGroupsAll(bits: seq<bv8>, g: nat, hi: nat)
    requires g <= hi <= |bits| && forall k :: g <= k < hi ==> bits[k] == 0
    ensures FreeGroups(bits, g, hi) == hi - g
    decreases hi - g
  {
    if g < hi {
      FreeGroupsAll(bits, g + 1, hi);
    }
  }

  lemma {:induction false} FreeGroupsSkip(bits: seq<bv8>, g: nat, k: nat, hi: nat)
    requires g <= k <= hi <= |bits| && forall j :: g <= j < k ==> bits[j] != 0
    ensures FreeGroups(bits, g, hi) == FreeGroups(bits, k, hi)
    decreases k - g
  {
    if g < k {
      FreeGroupsSkip(bits, g + 1, k, hi);
    }
  }

  ghost function Left(s: State): nat
    requires s.WellSized()
  {
    FreeGroups(s.bits, 0, Groups(s.count))
  }

  /** Some frame can be had exactly when some group is left. */
  lemma HasFreeGroupIff(s: State)
    requires s.WellSized()
    ensures HasFreeGroup(s) <==> Left(s) > 0
  {
    FreeGroupsNone(s.bits, 0, Groups(s.count));
    if HasFreeGroup(s) {
      var i: nat :| i < s.count && s.bits[Group(i)] == 0;
      assert Group(i) < Groups(s.count);
    }
    if Left(s) > 0 {
      var k :| 0 <= k < Groups(s.count) && s.bits[k] == 0;
      assert 8 * k < s.count && Group(8 * k) == k;
    }
  }

  lemma ReservedGroups(r: nat, g: nat)
    ensures Busy(Interval(0, r), g) <==> g < Groups(r)
  {
    if g < Groups(r) {
      assert 8 * g in Interval(0, r) && Group(8 * g) == g;
    }
  }

  /** With frames [0, r) reserved and none held, the groups left are those beyond the reserved ones. */
  lemma SetupLeft(s: State, r: nat)
    requires Inv(s, Interval(0, r), {})
    ensures r <= s.count && s.free == s.count - r && Left(s) == Groups(s.count) - Groups(r)
  {
    hide Alone, Bytes, FreeGroups;
    assert r > 0 ==> r - 1 in Interval(0, r);
    SetupBytes(s, r);
    FreeGroupsSkip(s.bits, 0, Groups(r), Groups(s.count));
    FreeGroupsAll(s.bits, Groups(r), Groups(s.count));
  }

  /** What `n` gets in a row leave: so many fewer free frames and so many fewer free groups. */
  ghost predicate After(s: State, n: nat, t: State)
    requires s.WellSized()
  {
    t.WellSized() && t.count == s.count && s.free == t.free + n && Left(s) == Left(t) + n
  }

  lemma TakeLeft(s: State, i: nat)
    requires s.WellSized() && i < s.count && s.bits[Group(i)] == 0 && s.free > 0
    ensures After(s, 1, Take(s, i))
  {
    hide FreeGroups;
    assert Group(i) < Groups(s.count);
    FreeGroupsTake(s.bits, 0, Groups(s.count), Group(i), Mark(i));
  }

  /** A get with the counter above zero takes exactly one group. */
  lemma GetTakesOne(s: State, idx: nat)
    requires s.WellSized() && s.free > 0 && Left(s) > 0
    ensures GetRec(s, idx, 2).Some? && After(s, 1, GetRec(s, idx, 2).value.state)
  {
    hide FreeGroups, After, Left, Group, Mark;
    HasFreeGroupIff(s);
    var i, j := FirstFree(s.bits, idx, s.count), FirstFree(s.bits, 0, s.count);
    var k := if i < s.count then i else j;
    TakeLeft(s, k);
  }

  /** `n` gets in a row, each of which must return a frame. */
  ghost function Gets(s: State, idx: nat, n: nat): Option<Outcome>
    requires s.WellSized()
  {
    if n == 0 then Some(Outcome(0, s, idx))
    else
      var p := Gets(s, idx, n - 1);
      if p.None? || !p.value.state.WellSized() || p.value.state.free == 0 then None
      else GetRec(p.value.state, p.value.idx, 2)
  }

  lemma {:induction false} GetsLeft(s: State, idx: nat, n: nat)
    requires s.WellSized() && n <= Left(s) <= s.free
    ensures Gets(s, idx, n).Some? && After(s, n, Gets(s, idx, n).value.state)
    decreases n
  {
    hide GetRec, Left;
    if n > 0 {
      GetsLeft(s, idx, n - 1);
      var p := Gets(s, idx, n - 1).value;
      GetTakesOne(p.state, p.idx);
    }
  }

  /** Nothing answers any more: whatever the depth, the call does not return. */
  ghost predicate Hangs(s: State, idx: nat)
    requires s.WellSized()
  {
    forall depth: nat :: GetRec(s, idx, depth).None?
  }

  lemma NoGroupHangs(s: State, idx: nat)
    requires s.WellSized() && s.free > 0 && Left(s) == 0
    ensures Hangs(s, idx)
  {
    hide GetRec, Left;
    HasFreeGroupIff(s);
    forall depth: nat ensures GetRec(s, idx, depth).None? {
      GetHangs(s, idx, depth);
    }
  }

  lemma {:induction false} GetsStop(s: State, idx: nat, m: nat, n: nat)
    requires s.WellSized() && m <= n && Gets(s, idx, m).None?
    ensures Gets(s, idx, n).None?
    decreases n
  {
    hide GetRec, State.WellSized;
    if m < n {
      GetsStop(s, idx, m, n - 1);
    }
  }

  /** From any state with a free frame for every free group, exactly as many gets succeed as there are free groups. */
  lemma GetsAsManyAsLeft(s: State, idx: nat, n: nat)
    requires s.WellSized() && Left(s) <= s.free
    ensures Gets(s, idx, n).Some? <==> n <= Left(s)
  {
    hide GetRec, Left;
    if n <= Left(s) {
      GetsLeft(s, idx, n);
    } else {
      GetsLeft(s, idx, Left(s));
      var o := Gets(s, idx, Left(s)).value;
      if o.state.free > 0 {
        NoGroupHangs(o.state, o.idx);
        assert GetRec(o.state, o.idx, 2).None?;
      }
      GetsStop(s, idx, Left(s) + 1, n);
    }
  }

  /**
   From frame_setup with frames [0, r) reserved, exactly (count + 7) / 8 - (r + 7) / 8 gets return a frame. The
   next call never returns, except when those gets used every unreserved frame up: then it returns NULL.
   */
  lemma GetsExactly(s: State, idx: nat, r: nat, n: nat)
    requires Inv(s, Interval(0, r), {})
    ensures r <= s.count && (Gets(s, idx, n).Some? <==> n <= Groups(s.count) - Groups(r))
    ensures n == Groups(s.count) - Groups(r) ==>
              var o := Gets(s, idx, n).value;
              o.state.WellSized() && if n < s.count - r then Hangs(o.state, o.idx) else o.state.free == 0
  {
    hide GetRec, Left, Hangs, Bytes, Alone;
    SetupLeft(s, r);
    GetsAsManyAsLeft(s, idx, n);
    if n == Left(s) {
      GetsLeft(s, idx, n);
      var o := Gets(s, idx, n).value;
      if n < s.count - r {
        NoGroupHangs(o.state, o.idx);
      }
    }
  }

  /** Two bytes of the bitmap are set: group 0 wholly reserved, and frame 8 held in group 1. */
  ghost function TwoGroups(): (s: State)
    ensures s.WellSized() && s.count == 16 && s.free == 7 && s.bits[0] == 128 && s.bits[1] == 1
    ensures forall g :: 2 <= g < BITMAP_SIZE ==> s.bits[g] == 0
  {
    State(seq(BITMAP_SIZE, g => if g == 0 then 128 else if g == 1 then 1 else 0), 16, 7)
  }

  /** Sixteen frames, the first eight reserved, one taken: seven are counted free and frame_get never returns. */
  lemma HangExample(idx: nat)
    ensures Inv(TwoGroups(), Interval(0, 8), {8}) && Hangs(TwoGroups(), idx)
  {
    hide GetRec, TwoGroups, Bytes, Hangs, Busy, Interval, Mark;
    var s := TwoGroups();
    HangBytes(s);
    FreeGroupsNone(s.bits, 0, 2);
    NoGroupHangs(s, idx);
  }

  lemma HangBytes(s: State)
    requires s == TwoGroups()
    ensures Bytes(s, Interval(0, 8), {8}) && Mark(8) == 1 && !Busy(Interval(0, 8), 1)
  {
    hide TwoGroups, Interval;
    forall g: nat | g < BITMAP_SIZE ensures s.bits[g] != 0 <==> Busy(Interval(0, 8), g) || Busy({8}, g) {
      ReservedGroups(8, g);
      assert Busy({8}, g) <==> g == 1 by {
        assert 8 in {8} && Group(8) == 1;
      }
    }
    ReservedGroups(8, 1);
  }

  /** The frame that a get returns from this state; 0 when it does not return. */
  ghost function NextFrame(s: State, idx: nat): nat {
    if s.WellSized() && GetRec(s, idx, 2).Some? then GetRec(s, idx, 2).value.frame else 0
  }

  /** Exactly the groups [0, g) are marked. */
  ghost predicate MarkedBelow(s: State, g: nat) {
    s.WellSized() && forall k: nat :: k < BITMAP_SIZE ==> (s.bits[k] != 0 <==> k < g)
  }

  /** With the groups [0, g) marked and the index no further, a get returns the first frame of group `g`. */
  lemma GetNextGroup(s: State, idx: nat, g: nat)
    requires MarkedBelow(s, g) && s.free > 0 && idx <= 8 * g < s.count
    ensures GetRec(s, idx, 2).Some?
    ensures var o := GetRec(s, idx, 2).value; o.frame == 8 * g && o.idx == idx + 1 && MarkedBelow(o.state, g + 1)
  {
    assert s.bits[Group(8 * g)] == 0;
    assert forall j: nat :: j < 8 * g ==> s.bits[Group(j)] != 0;
    assert FirstFree(s.bits, idx, s.count) == 8 * g;
  }

  /**
   From frame_setup of [0, r), get number `n` returns the first frame of the n-th group behind the reserved ones, and
   leaves the index n + 1 past r.
   */
  lemma {:induction false} NthGet(s: State, r: nat, n: nat)
    requires Inv(s, Interval(0, r), {}) && r <= s.count && n < Groups(s.count) - Groups(r)
    ensures Gets(s, r, n + 1).Some?
    ensures var o := Gets(s, r, n + 1).value; o.frame == 8 * (Groups(r) + n) && o.idx == r + n + 1
  {
    hide GetRec, Left, MarkedBelow, Bytes, Alone, Interval;
    SetupLeft(s, r);
    GetsLeft(s, r, n);
    NthState(s, r, n);
    var o := Gets(s, r, n).value;
    GetNextGroup(o.state, o.idx, Groups(r) + n);
  }

  lemma {:induction false} NthState(s: State, r: nat, n: nat)
    requires Inv(s, Interval(0, r), {}) && r <= s.count && n <= Groups(s.count) - Groups(r)
    ensures Gets(s, r, n).Some?
    ensures var o := Gets(s, r, n).value; MarkedBelow(o.state, Groups(r) + n) && o.idx == r + n
    decreases n
  {
    hide GetRec, Left, Bytes, Alone, Interval;
    SetupBytes(s, r);
    SetupLeft(s, r);
    GetsLeft(s, r, n);
    if n > 0 {
      NthState(s, r, n - 1);
      GetsLeft(s, r, n - 1);
      var o := Gets(s, r, n - 1).value;
      hide MarkedBelow;
      GetNextGroup(o.state, o.idx, Groups(r) + n - 1);
    }
  }

  /** Get, get, free of the first frame, get: the index is by then inside the freed group, and the third frame is frame 10. */
  lemma ThirdGetExample(s: State)
    requires Inv(s, Interval(0, 8), {}) && s.count >= 24
    ensures Gets(s, 8, 2).Some?
    ensures var o := Gets(s, 8, 2).value;
            o.frame == 16 && o.state.WellSized() && NextFrame(Release(o.state, 8), o.idx) == 10
  {
    hide Bytes, Alone, Interval, GetRec;
    NthGet(s, 8, 0);
    NthGet(s, 8, 1);
    NthState(s, 8, 0);
    SetupLeft(s, 8);
    GetsLeft(s, 8, 1);
    GetsLeft(s, 8, 2);
    var a, o := Gets(s, 8, 1).value, Gets(s, 8, 2).value;
    ThirdGet(s, a, o);
  }

  lemma ThirdGet(s: State, a: Outcome, o: Outcome)
    requires MarkedBelow(s, 1) && 1 < s.free <= s.count && s.count >= 24
    requires GetRec(s, 8, 2) == Some(a) && a.frame == 8 && a.idx == 9
    requires a.state.WellSized() && GetRec(a.state, 9, 2) == Some(o) && o.frame == 16 && o.idx == 10 && o.state.WellSized()
    ensures NextFrame(Release(o.state, 8), 10) == 10
  {
    assert a.state == Take(s, 8) && o.state == Take(a.state, 16);
    var t := Release(o.state, 8);
    assert t.bits[1] == Mark(8) & !Mark(8);
    assert Group(10) == 1;
    assert FirstFree(t.bits, 10, t.count) == 10;
  }

  /** With frames [0, r) reserved, whatever is held lies above the last group with a reserved frame. */
  lemma HeldAbove(s: State, r: nat, H: set<nat>, f: nat)
    requires Inv(s, Interval(0, r), H) && f in H
    ensures f >= 8 * Groups(r)
  {
    hide Bytes, Interval;
    ReservedGroups(r, Group(f));
  }

  /** After frame_setup of [0, r) the first get returns the first frame of the first wholly unreserved group. */
  lemma FirstGet(s: State, r: nat)
    requires Inv(s, Interval(0, r), {}) && 8 * Groups(r) < s.count
    ensures NextFrame(s, r) == 8 * Groups(r)
  {
    hide Alone, Bytes, Interval;
    var f := 8 * Groups(r);
    SetupBytes(s, r);
    SetupLeft(s, r);
    assert s.bits[Group(f)] == 0;
    assert forall j :: r <= j < f ==> s.bits[Group(j)] != 0;
    assert FirstFree(s.bits, r, s.count) == f;
  }

  lemma SetupBytes(s: State, r: nat)
    requires Inv(s, Interval(0, r), {})
    ensures forall g: nat :: g < BITMAP_SIZE ==> (s.bits[g] != 0 <==> g < Groups(r))
  {
    hide Alone, Interval;
    forall g: nat | g < BITMAP_SIZE ensures s.bits[g] != 0 <==> g < Groups(r) {
      ReservedGroups(r, g);
      assert !Busy({}, g);
    }
  }

  // ------------------------------------------------------------ the C globals

  /** How many pages the loop of frame_setup visits. */
  function Pages(start: nat, end: nat): nat {
    if start >= end then 0 else (end - start + 0xFFF) / 0x1000
  }

  /** The loop variable of frame_setup before turn `n`, in uint32_t arithmetic. */
  function Cursor(start: u32, n: nat): u32 { (start + 0x1000 * n) % 0x1_0000_0000 }

  /** The last page of the address space reaches the end, so that the loop of frame_setup can stop. */
  predicate SetupEnds(start: u32, end: u32) { start >= end || end <= 0xFFFF_F000 + start % 0x1000 }

  lemma CursorBelow(start: u32, n: nat)
    requires start + 0x1000 * n < 0x1_0000_0000
    ensures Cursor(start, n) == start + 0x1000 * n
  {
  }

  lemma CursorOffset(start: u32, n: nat)
    ensures Cursor(start, n) % 0x1000 == start % 0x1000
  {
    var q := (start + 0x1000 * n) / 0x1_0000_0000;
    assert Cursor(start, n) == start + 0x1000 * (n - 0x10_0000 * q);
  }

  /** The loop of frame_setup ever stops exactly when the variable can reach the end before it wraps. */
  lemma SetupEndsIff(start: u32, end: u32)
    ensures (exists n: nat :: Cursor(start, n) >= end) <==> SetupEnds(start, end)
  {
    if start >= end {
      CursorBelow(start, 0);
    } else if SetupEnds(start, end) {
      var n := 0xF_FFFF - start / 0x1000;
      CursorBelow(start, n);
    } else {
      forall n: nat ensures Cursor(start, n) < end {
        CursorOffset(start, n);
      }
    }
  }

  lemma PagesStep(start: nat, end: nat, k: nat)
    requires start + 0x1000 * k < end
    ensures k < Pages(start, end) && (start + 0x1000 * k) / 0x1000 == start / 0x1000 + k
  {
  }

  lemma PagesDone(start: nat, end: nat, k: nat)
    requires end <= start + 0x1000 * k && k <= Pages(start, end)
    ensures k == Pages(start, end)
  {
  }

  /** A group byte is zero exactly when the group has no frame of `R`. */
  ghost predicate Marked(bits: seq<bv8>, R: set<nat>) {
    |bits| == BITMAP_SIZE && forall g: nat :: g < BITMAP_SIZE ==> (bits[g] != 0 <==> Busy(R, g))
  }

  lemma NothingMarked(bits: seq<bv8>)
    requires |bits| == BITMAP_SIZE && forall g :: 0 <= g < BITMAP_SIZE ==> bits[g] == 0
    ensures Marked(bits, {})
  {
  }

  lemma NoFrames(lo: nat)
    ensures Interval(lo, 0) == {}
  {
  }

  /** Reserved frames that exist, marked and counted off, are what frame_setup is to leave. */
  lemma SetupInv(s: State, lo: nat, n: nat)
    requires Marked(s.bits, Interval(lo, n)) && n <= 0x10_0000 && s.count < 0x10_0000 && s.free == FreeAfter(s.count, n)
    ensures lo + n <= s.count ==> Inv(s, Interval(lo, n), {})
  {
    hide Interval;
    assert forall g: nat :: !Busy({}, g);
  }

  lemma PagesFew(start: u32, end: u32)
    requires SetupEnds(start, end)
    ensures Pages(start, end) <= 0x10_0000
  {
  }

  lemma NextCursor(start: u32, end: u32, k: nat)
    requires SetupEnds(start, end) && start + 0x1000 * k < end
    ensures start + 0x1000 * k + 0x1000 < 0x1_0000_0000
  {
  }

  /** The free counter after `n` frames of `count` are marked, in uint32_t arithmetic. */
  function FreeAfter(count: u32, n: nat): u32
    requires n <= 0x10_0000
  {
    if n <= count then count - n else count - n + 0x1_0000_0000
  }

  lemma FreeNext(count: u32, n: nat)
    requires n < 0x10_0000
    ensures FreeAfter(count, n + 1) == Sub32(FreeAfter(count, n), 1) && FreeAfter(count, 0) == count
  {
  }

  class FrameAllocator {
    const bitmap: array<bv8>
    var framesCount: u32
    var framesFree: u32
    var frameIdx: u32
    ghost var reserved: set<nat>
    ghost var held: set<nat>

    ghost function View(): State
      reads this`framesCount, this`framesFree, bitmap
    {
      State(bitmap[..], framesCount, framesFree)
    }

    ghost predicate Valid()
      reads this, bitmap
    {
      Inv(View(), reserved, held)
    }

    /**
     frame_setup on the zero-filled bitmap: the frames from `reservedStart` up to `reservedEnd` are marked, whatever
     the memory size; the free counter wraps when there are more of them than frames. Where all of them exist they
     are the reserved frames. SetupEndsIff says when the loop does not stop at all.
     */
    constructor (memSize: u32, reservedStart: u32, reservedEnd: u32)
      requires SetupEnds(reservedStart, reservedEnd)
      ensures fresh(bitmap) && bitmap.Length == BITMAP_SIZE && held == {}
      ensures framesCount == memSize / 0x1000 && frameIdx == Pages(reservedStart, reservedEnd)
      ensures reserved == Interval(reservedStart / 0x1000, frameIdx) && Marked(bitmap[..], reserved)
      ensures frameIdx <= 0x10_0000 && framesFree == FreeAfter(framesCount, frameIdx)
      ensures reservedStart / 0x1000 + frameIdx <= framesCount ==> Valid()
    {
      bitmap := new bv8[BITMAP_SIZE](i => 0);
      framesCount := memSize / 0x1000;
      framesFree := memSize / 0x1000;
      frameIdx := 0;
      reserved, held := {}, {};
      new;
      hide Inv, Marked, Pages, Interval, SetupEnds, FreeAfter;
      NothingMarked(bitmap[..]);
      FreeNext(framesCount, 0);
      NoFrames(reservedStart / 0x1000);
      MarkAll(reservedStart, reservedEnd);
      SetupInv(View(), reservedStart / 0x1000, frameIdx);
    }

    /** The loop of frame_setup. */
    method MarkAll(start: u32, end: u32)
      requires SetupEnds(start, end) && bitmap.Length == BITMAP_SIZE && frameIdx == 0 && framesFree == framesCount
      requires reserved == {} && Marked(bitmap[..], {})
      modifies this`framesFree, this`reserved, this`frameIdx, bitmap
      ensures frameIdx == Pages(start, end) <= 0x10_0000 && framesFree == FreeAfter(framesCount, frameIdx)
      ensures reserved == Interval(start / 0x1000, frameIdx) && Marked(bitmap[..], reserved)
    {
      hide Marked, Pages, Interval, SetupEnds, FreeAfter, Sub32, Mark;
      FreeNext(framesCount, 0);
      NoFrames(start / 0x1000);
      PagesFew(start, end);
      var i := start;
      while i < end
        invariant i == start + 0x1000 * frameIdx && frameIdx <= Pages(start, end)
        invariant reserved == Interval(start / 0x1000, frameIdx) && framesFree == FreeAfter(framesCount, frameIdx)
        invariant Marked(bitmap[..], reserved)
        decreases end - i
      {
        PagesStep(start, end, frameIdx);
        NextCursor(start, end, frameIdx);
        FreeNext(framesCount, frameIdx);
        IntervalNext(start / 0x1000, frameIdx);
        FrameSetAddress(i);
        frameIdx := frameIdx + 1;
        i := i + 0x1000;
      }
      PagesDone(start, end, frameIdx);
    }

    /** frame_set_address: the byte of the frame's group is assigned and the counter falls, wrapping at zero. */
    method FrameSetAddress(addr: u32)
      requires bitmap.Length == BITMAP_SIZE && Marked(bitmap[..], reserved)
      modifies this`framesFree, this`reserved, bitmap
      ensures reserved == old(reserved) + {addr / 0x1000} && Marked(bitmap[..], reserved)
      ensures framesFree == Sub32(old(framesFree), 1)
      ensures bitmap[..] == old(bitmap[..])[addr / 0x8000 := Mark(addr / 0x1000)]
    {
      var i := addr / 0x1000;
      bitmap[i / 8] := Mark(i);
      framesFree := Sub32(framesFree, 1);
      reserved := reserved + {i};
      BusyAdd(old(reserved), i);
    }

    /** frame_set of a frame in a free group. */
    method FrameSet(i: nat)
      requires Valid() && i < framesCount && bitmap[Group(i)] == 0 && framesFree > 0
      modifies this`framesFree, this`held, bitmap
      ensures Valid() && View() == Take(old(View()), i)
      ensures i !in reserved && i !in old(held) && held == old(held) + {i}
    {
      hide Bytes, Alone;
      TakeKeeps(View(), reserved, held, i);
      bitmap[i / 8] := Mark(i);
      framesFree := framesFree - 1;
      held := held + {i};
      assert View() == Take(old(View()), i);
    }

    /** The scan of frame_get: the first frame from the index up whose group byte is zero. */
    method Scan() returns (i: nat)
      requires View().WellSized()
      ensures i <= framesCount || i == frameIdx
      ensures i < framesCount ==> i == FirstFree(View().bits, frameIdx, framesCount) && bitmap[Group(i)] == 0
      ensures i >= framesCount ==> FirstFree(View().bits, frameIdx, framesCount) == framesCount
    {
      ghost var bits := View().bits;
      i := frameIdx;
      while i < framesCount && bitmap[i / 8] != 0
        invariant frameIdx <= i && (i <= framesCount || i == frameIdx)
        invariant FirstFree(bits, frameIdx, framesCount) == FirstFree(bits, i, framesCount)
      {
        assert bits[Group(i)] == bitmap[i / 8];
        i := i + 1;
      }
    }

    /** frame_get; None where the C call never returns (GetReturnsIff says when). */
    method FrameGet() returns (r: Option<nat>)
      requires Valid()
      modifies this`frameIdx, this`framesFree, this`held, bitmap
      ensures Valid()
      ensures r.None? ==> old(framesFree) > 0 && !HasFreeGroup(old(View())) && held == old(held) && View() == old(View())
      ensures r.Some? ==> GetRec(old(View()), old(frameIdx), 2) == Some(Outcome(r.value, View(), frameIdx))
      ensures r.Some? && old(framesFree) > 0 ==> Answers(old(View()), old(frameIdx), r.value, frameIdx)
      ensures r.Some? ==> r.value < MAX_FRAMES
      ensures r.Some? && old(framesFree) == 0 ==> r.value == 0 && held == old(held)
      ensures r.Some? && old(framesFree) > 0 ==>
                && r.value < framesCount && r.value !in reserved && r.value !in old(held)
                && held == old(held) + {r.value} && framesFree == old(framesFree) - 1
      decreases frameIdx
    {
      hide Bytes, Alone, Answers, NoneFrom;
      if framesFree == 0 {
        return Some(0);
      }
      var i := Scan();
      ScanAnswers(View(), frameIdx, i);
      if i < framesCount {
        FrameSet(i);
        frameIdx := frameIdx + 1;
        return Some(i);
      }
      if frameIdx == 0 {
        return None;
      }
      frameIdx := 0;
      r := FrameGet();
      if r.Some? {
        GetFromZero(old(View()));
        RestartAnswers(old(View()), old(frameIdx), r.value, frameIdx);
      }
    }

    /** frame_free of any frame; of a held one it keeps the invariant. */
    method FrameFree(i: nat)
      requires View().WellSized() && i < MAX_FRAMES
      modifies this`framesFree, this`held, bitmap
      ensures View() == Release(old(View()), i) && held == old(held) - {i}
      ensures old(Valid()) && i in old(held) ==> Valid() && i !in reserved && framesFree == old(framesFree) + 1
    {
      hide Bytes, Alone;
      if Valid() && i in held {
        ReleaseKeeps(View(), reserved, held, i);
      }
      held := held - {i};
      if i > framesCount {
        return;
      }
      bitmap[i / 8] := bitmap[i / 8] & !Mark(i);
      framesFree := Add32(framesFree, 1);
      assert View() == Release(old(View()), i);
    }
  }

  /** A scan that finds a frame answers with it; one that does not has seen that there is none. */
  lemma ScanAnswers(s: State, idx: nat, i: nat)
    requires s.WellSized() && (i < s.count ==> i == FirstFree(s.bits, idx, s.count))
    requires i >= s.count ==> FirstFree(s.bits, idx, s.count) == s.count
    ensures i < s.count ==> Answers(s, idx, i, idx + 1)
    ensures i >= s.count ==> NoneFrom(s.bits, idx, s.count)
  {
    if i < s.count {
      assert s.bits[Group(i)] == 0;
    }
  }

  lemma RestartAnswers(s: State, idx: nat, frame: nat, idx': nat)
    requires NoneFrom(s.bits, idx, s.count) && Answers(s, 0, frame, idx')
    ensures Answers(s, idx, frame, idx')
  {
  }

  /** From index 0 a second activation adds nothing to the first. */
  lemma GetFromZero(s: State)
    requires s.WellSized() && GetRec(s, 0, 2).Some?
    ensures GetRec(s, 0, 1) == GetRec(s, 0, 2)
  {
    var i := FirstFree(s.bits, 0, s.count);
  }
}
