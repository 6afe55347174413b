/**
 A writer of ELF images with symbol tables, in the layout of the System V ABI, chapter 4, byte by byte, and the proof that
 the search of kernel/elf.c finds in such an image what was written. Section 0 is empty; table t has its symbols in section
 2t + 1 and their names in section 2t + 2.
 */
module ElfWriter {
  import opened Machine
  import opened Elf

  datatype Sym = Sym(name: seq<u8>, value: u32, size: u32, ty: nat, binding: nat, section: u16)

  type Table = seq<Sym>

  // ------------------------------------------------------------ pieces of an image

  function Le16(x: u16): (b: seq<u8>)
    ensures |b| == 2
  {
    [x % 256, x / 256]
  }

  function Le32(x: u32): (b: seq<u8>)
    ensures |b| == 4
  {
    [x % 256, x / 256 % 256, x / 65536 % 256, x / 16777216]
  }

  /** The pieces one after the other. */
  function Flat(parts: seq<seq<u8>>): seq<u8> {
    if parts == [] then [] else parts[0] + Flat(parts[1..])
  }

  /** Where piece `k` starts. */
  function Off(parts: seq<seq<u8>>, k: nat): nat
    requires k <= |parts|
  {
    if k == 0 then 0 else |parts[0]| + Off(parts[1..], k - 1)
  }

  /** The bytes `b` hold piece `p` at address `a`. */
  ghost predicate Holds(b: seq<u8>, a: nat, p: seq<u8>) {
    a + |p| <= |b| && b[a..a + |p|] == p
  }

  lemma HoldsWithin(b: seq<u8>, a: nat, p: seq<u8>, o: nat, q: seq<u8>)
    requires Holds(b, a, p) && Holds(p, o, q)
    ensures Holds(b, a + o, q)
  {
    forall k | 0 <= k < |q| ensures b[a + o + k] == q[k] {
      assert p[o..o + |q|][k] == p[o + k] && b[a..a + |p|][o + k] == b[a + (o + k)];
    }
    assert b[a + o..a + o + |q|] == q;
  }

  lemma {:induction false} HoldsPart(parts: seq<seq<u8>>, k: nat)
    requires k < |parts|
    ensures Holds(Flat(parts), Off(parts, k), parts[k])
    decreases k
  {
    var head, rest := parts[0], Flat(parts[1..]);
    if k == 0 {
      assert (head + rest)[..|head|] == head;
    } else {
      HoldsPart(parts[1..], k - 1);
      assert Holds(head + rest, |head|, rest) by {
        assert (head + rest)[|head|..] == rest;
      }
      HoldsWithin(head + rest, |head|, rest, Off(parts[1..], k - 1), parts[k]);
    }
  }

  lemma {:induction false} OffEnd(parts: seq<seq<u8>>)
    ensures Off(parts, |parts|) == |Flat(parts)|
  {
    if parts != [] {
      OffEnd(parts[1..]);
    }
  }

  lemma {:induction false} OffNext(parts: seq<seq<u8>>, k: nat)
    requires k < |parts|
    ensures Off(parts, k + 1) == Off(parts, k) + |parts[k]|
    decreases k
  {
    if k > 0 {
      OffNext(parts[1..], k - 1);
    }
  }

  lemma {:induction false} Off16(parts: seq<seq<u8>>, k: nat)
    requires k <= |parts| && forall i :: 0 <= i < |parts| ==> |parts[i]| == 16
    ensures Off(parts, k) == 16 * k
    decreases k
  {
    if k > 0 {
      Off16(parts, k - 1);
      OffNext(parts, k - 1);
    }
  }

  lemma {:induction false} Off40(parts: seq<seq<u8>>, k: nat)
    requires k <= |parts| && forall i :: 0 <= i < |parts| ==> |parts[i]| == 40
    ensures Off(parts, k) == 40 * k
    decreases k
  {
    if k > 0 {
      Off40(parts, k - 1);
      OffNext(parts, k - 1);
    }
  }

  // -------------------------------------------------------------- reading bytes

  /** The image that these bytes are, zeros behind them. */
  function ImageOf(b: seq<u8>): Image {
    Image((a: nat) => if a + 4 <= |b| then Word(b[a], b[a + 1], b[a + 2], b[a + 3]) else 0,
          (a: nat) => if a + 2 <= |b| then Half(b[a], b[a + 1]) else 0,
          (a: nat) => if a < |b| then b[a] else 0)
  }

  function Half(x: u8, y: u8): nat { x + 256 * y as int }

  function Word(x: u8, y: u8, z: u8, w: u8): nat { x + 256 * y as int + 65536 * z as int + 16777216 * w as int }

  lemma WordIs(b: seq<u8>, a: nat, x: u32)
    requires Holds(b, a, Le32(x))
    ensures ImageOf(b).word(a) == x
  {
    var p := b[a..a + 4];
    assert p[0] == b[a] && p[1] == b[a + 1] && p[2] == b[a + 2] && p[3] == b[a + 3];
    assert x / 256 / 256 == x / 65536 && x / 65536 / 256 == x / 16777216;
  }

  lemma HalfIs(b: seq<u8>, a: nat, x: u16)
    requires Holds(b, a, Le16(x))
    ensures ImageOf(b).half(a) == x
  {
    var p := b[a..a + 2];
    assert p[0] == b[a] && p[1] == b[a + 1];
  }

  lemma ByteIs(b: seq<u8>, a: nat, p: seq<u8>, k: nat)
    requires Holds(b, a, p) && k < |p|
    ensures ImageOf(b).byte(a + k) == p[k]
  {
    assert b[a..a + |p|][k] == b[a + k];
  }

  // ------------------------------------------------------------------- headers

  /** The file header: a relocatable i386 file with `n` sections, whose headers of 40 bytes follow it. */
  function FileHeader(n: u16): (b: seq<u8>)
    ensures |b| == 52
  {
    var id := [0x7F, 0x45, 0x4C, 0x46, 1, 1, 1, 0, 0, 0, 0, 0, 0, 0, 0, 0];
    id + Le16(1) + Le16(3) + Le32(1) + Le32(0) + Le32(0) + Le32(52) + Le32(0)
       + Le16(52) + Le16(0) + Le16(0) + Le16(40) + Le16(n) + Le16(0)
  }

  lemma FileHeaderReads(b: seq<u8>, n: u16)
    requires Holds(b, 0, FileHeader(n))
    ensures NumSects(ImageOf(b)) == n && forall i: nat :: SectAt(ImageOf(b), i) == 52 + 40 * i
  {
    hide ImageOf, Le16, Le32;
    var h := FileHeader(n);
    assert h[32..36] == Le32(52) && h[46..48] == Le16(40) && h[48..50] == Le16(n);
    HoldsWithin(b, 0, h, 32, Le32(52));
    WordIs(b, 32, 52);
    HoldsWithin(b, 0, h, 46, Le16(40));
    HalfIs(b, 46, 40);
    HoldsWithin(b, 0, h, 48, Le16(n));
    HalfIs(b, 48, n);
  }

  /** A section header: name, type, flags, address, offset, size, link, info, alignment, entry size. */
  function SectHeader(ty: u32, flags: u32, offset: u32, size: u32, link: u32, ent: u32): (b: seq<u8>)
    ensures |b| == 40
  {
    Le32(0) + Le32(ty) + Le32(flags) + Le32(0) + Le32(offset) + Le32(size) + Le32(link) + Le32(0) + Le32(0) + Le32(ent)
  }

  lemma SectHeaderReads(b: seq<u8>, h: nat, ty: u32, flags: u32, offset: u32, size: u32, link: u32, ent: u32)
    requires Holds(b, h, SectHeader(ty, flags, offset, size, link, ent))
    ensures var img := ImageOf(b);
            && Type(img, h) == ty && Flags(img, h) == flags && Offset(img, h) == offset
            && Size(img, h) == size && Link(img, h) == link && EntSize(img, h) == ent
  {
    hide ImageOf, Le32;
    var p := SectHeader(ty, flags, offset, size, link, ent);
    assert p[4..8] == Le32(ty) && p[8..12] == Le32(flags) && p[16..20] == Le32(offset) && p[20..24] == Le32(size);
    assert p[24..28] == Le32(link) && p[36..40] == Le32(ent);
    HoldsWithin(b, h, p, 4, Le32(ty));
    WordIs(b, h + 4, ty);
    HoldsWithin(b, h, p, 8, Le32(flags));
    WordIs(b, h + 8, flags);
    HoldsWithin(b, h, p, 16, Le32(offset));
    WordIs(b, h + 16, offset);
    HoldsWithin(b, h, p, 20, Le32(size));
    WordIs(b, h + 20, size);
    HoldsWithin(b, h, p, 24, Le32(link));
    WordIs(b, h + 24, link);
    HoldsWithin(b, h, p, 36, Le32(ent));
    WordIs(b, h + 36, ent);
  }

  /** A symbol table entry: name, value, size, type below binding, a zero, section. */
  function SymEntry(name: u32, s: Sym): (b: seq<u8>)
    requires s.ty < 16 && s.binding < 16
    ensures |b| == 16
  {
    Le32(name) + Le32(s.value) + Le32(s.size) + [s.ty + 16 * s.binding] + [0] + Le16(s.section)
  }

  lemma SymEntryReads(b: seq<u8>, a: nat, name: u32, s: Sym)
    requires s.ty < 16 && s.binding < 16 && Holds(b, a, SymEntry(name, s))
    ensures ImageOf(b).word(a) == name && SymType(ImageOf(b), a) == s.ty
  {
    hide ImageOf, Le32, Le16;
    var p := SymEntry(name, s);
    assert p[0..4] == Le32(name) && p[12] == s.ty + 16 * s.binding;
    HoldsWithin(b, a, p, 0, Le32(name));
    WordIs(b, a, name);
    ByteIs(b, a, p, 12);
  }

  // -------------------------------------------------------------------- tables

  predicate GoodSym(s: Sym) { s.ty < 16 && s.binding < 16 && forall k :: 0 <= k < |s.name| ==> s.name[k] != 0 }

  predicate GoodTable(t: Table) { forall i :: 0 <= i < |t| ==> GoodSym(t[i]) }

  /** The string table: a zero, then each name with its zero. */
  function StrParts(t: Table): (p: seq<seq<u8>>)
    ensures |p| == |t| + 1 && forall i :: 0 <= i < |t| ==> p[i + 1] == t[i].name + [0]
  {
    if t == [] then [[0]] else StrParts(t[..|t| - 1]) + [t[|t| - 1].name + [0]]
  }

  function Strs(t: Table): seq<u8> { Flat(StrParts(t)) }

  function NameOff(t: Table, i: nat): nat
    requires i < |t|
  {
    Off(StrParts(t), i + 1)
  }

  lemma NameOffSmall(t: Table, i: nat)
    requires i < |t|
    ensures NameOff(t, i) < |Strs(t)|
  {
    HoldsPart(StrParts(t), i + 1);
    assert |StrParts(t)[i + 1]| == |t[i].name| + 1;
  }

  function SymParts(t: Table, n: nat): (p: seq<seq<u8>>)
    requires GoodTable(t) && n <= |t| && |Strs(t)| < 0x1_0000_0000
    ensures |p| == n && forall i :: 0 <= i < n ==> NameOff(t, i) < 0x1_0000_0000 && p[i] == SymEntry(NameOff(t, i), t[i])
  {
    if n == 0 then [] else
      NameOffSmall(t, n - 1);
      SymParts(t, n - 1) + [SymEntry(NameOff(t, n - 1), t[n - 1])]
  }

  function Syms(t: Table): seq<u8>
    requires GoodTable(t) && |Strs(t)| < 0x1_0000_0000
  {
    Flat(SymParts(t, |t|))
  }

  lemma SymsSize(t: Table)
    requires GoodTable(t) && |Strs(t)| < 0x1_0000_0000
    ensures |Syms(t)| == 16 * |t|
  {
    hide SymEntry;
    Off16(SymParts(t, |t|), |t|);
    OffEnd(SymParts(t, |t|));
  }

  /** Entry `i` of a symbol table in memory has its own type, and its name's place in the string table. */
  lemma SymReads(b: seq<u8>, a: nat, t: Table, i: nat)
    requires GoodTable(t) && |Strs(t)| < 0x1_0000_0000 && Holds(b, a, Syms(t)) && i < |t|
    ensures ImageOf(b).word(a + i * 16) == NameOff(t, i) && SymType(ImageOf(b), a + i * 16) == t[i].ty
  {
    hide SymEntry, ImageOf, NameOff, Holds, SymType;
    var parts := SymParts(t, |t|);
    Off16(parts, i);
    HoldsPart(parts, i);
    HoldsWithin(b, a, Syms(t), Off(parts, i), parts[i]);
    SymEntryReads(b, a + i * 16, NameOff(t, i), t[i]);
  }

  /** The string at a name's place is that name and no other. */
  lemma NameReads(b: seq<u8>, a: nat, t: Table, i: nat, name: seq<u8>)
    requires GoodTable(t) && Holds(b, a, Strs(t)) && i < |t| && NoZero(name)
    ensures Named(ImageOf(b), a + NameOff(t, i), name) <==> t[i].name == name
  {
    hide ImageOf, Named, Holds, Flat, Off;
    HoldsPart(StrParts(t), i + 1);
    HoldsWithin(b, a, Strs(t), NameOff(t, i), t[i].name + [0]);
    assert GoodSym(t[i]);
    StringIs(b, a + NameOff(t, i), t[i].name, name);
  }

  lemma StringIs(b: seq<u8>, p: nat, s: seq<u8>, name: seq<u8>)
    requires Holds(b, p, s + [0]) && NoZero(s) && NoZero(name)
    ensures Named(ImageOf(b), p, name) <==> s == name
  {
    hide ImageOf, Holds;
    var img, z := ImageOf(b), s + [0];
    if s == name {
      forall k | 0 <= k < |name| ensures img.byte(p + k) == name[k] {
        ByteIs(b, p, z, k);
      }
      ByteIs(b, p, z, |s|);
    }
    if Named(img, p, name) {
      assert |s| < |name| ==> img.byte(p + |s|) == name[|s|];
      ByteIs(b, p, z, if |name| < |s| then |name| else |s|);
      assert |s| == |name|;
      forall k | 0 <= k < |s| ensures s[k] == name[k] {
        assert img.byte(p + k) == name[k];
        ByteIs(b, p, z, k);
      }
    }
  }

  // ------------------------------------------------------------------ the image

  ghost predicate Good(ts: seq<Table>) {
    && 2 * |ts| + 1 < 0x1_0000 && (forall t :: 0 <= t < |ts| ==> GoodTable(ts[t]) && |Strs(ts[t])| < 0x1_0000_0000)
  }

  lemma GoodParts(ts: seq<Table>)
    requires Good(ts)
    ensures 2 * |ts| + 1 < 0x1_0000 && forall t :: 0 <= t < |ts| ==> GoodTable(ts[t]) && |Strs(ts[t])| < 0x1_0000_0000
  {
  }

  /** The symbols and the names of the first `n` tables, in turn. */
  ghost function DataUpto(ts: seq<Table>, n: nat): (p: seq<seq<u8>>)
    requires Good(ts) && n <= |ts|
    ensures |p| == 2 * n
    ensures forall t: nat :: t < n ==> p[2 * t] == Syms(ts[t]) && p[2 * t + 1] == Strs(ts[t])
  {
    if n == 0 then [] else DataUpto(ts, n - 1) + [Syms(ts[n - 1]), Strs(ts[n - 1])]
  }

  ghost function DataParts(ts: seq<Table>): (p: seq<seq<u8>>)
    requires Good(ts)
    ensures |p| == 2 * |ts|
  {
    DataUpto(ts, |ts|)
  }

  lemma DataOf(ts: seq<Table>, t: nat)
    requires Good(ts) && t < |ts|
    ensures GoodTable(ts[t]) && |Strs(ts[t])| < 0x1_0000_0000
    ensures DataParts(ts)[2 * t] == Syms(ts[t]) && DataParts(ts)[2 * t + 1] == Strs(ts[t])
  {
    hide Syms, Strs, DataUpto;
  }

  /** Where the data of section `i` starts. */
  ghost function DataAt(ts: seq<Table>, i: nat): nat
    requires Good(ts) && 0 < i <= 2 * |ts|
  {
    52 + 40 * (2 * |ts| + 1) + Off(DataParts(ts), i - 1)
  }

  ghost function TotalSize(ts: seq<Table>): nat
    requires Good(ts)
  {
    52 + 40 * (2 * |ts| + 1) + |Flat(DataParts(ts))|
  }

  lemma DataFits(ts: seq<Table>, i: nat)
    requires Good(ts) && 0 < i <= 2 * |ts|
    ensures DataAt(ts, i) + |DataParts(ts)[i - 1]| <= TotalSize(ts)
  {
    HoldsPart(DataParts(ts), i - 1);
  }

  /** The header of section `i`. */
  ghost function Head(ts: seq<Table>, i: nat): (b: seq<u8>)
    requires Good(ts) && i <= 2 * |ts| && TotalSize(ts) < 0x1_0000_0000
    ensures |b| == 40
  {
    if i == 0 then SectHeader(0, 0, 0, 0, 0, 0)
    else
      DataFits(ts, i);
      var size := |DataParts(ts)[i - 1]|;
      if i % 2 == 1 then SectHeader(2, 0, DataAt(ts, i), size, i + 1, 16) else SectHeader(3, 0, DataAt(ts, i), size, 0, 0)
  }

  ghost function Heads(ts: seq<Table>): (p: seq<seq<u8>>)
    requires Good(ts) && TotalSize(ts) < 0x1_0000_0000
    ensures |p| == 2 * |ts| + 1 && forall i :: 0 <= i <= 2 * |ts| ==> p[i] == Head(ts, i)
  {
    seq(2 * |ts| + 1, i requires 0 <= i <= 2 * |ts| => Head(ts, i))
  }

  /** The image: the file header, the section headers, the data. */
  ghost function Written(ts: seq<Table>): seq<u8>
    requires Good(ts) && TotalSize(ts) < 0x1_0000_0000
  {
    FileHeader(2 * |ts| + 1) + Flat(Heads(ts)) + Flat(DataParts(ts))
  }

  lemma WrittenParts(ts: seq<Table>)
    requires Good(ts) && TotalSize(ts) < 0x1_0000_0000
    ensures var b := Written(ts);
            && Holds(b, 0, FileHeader(2 * |ts| + 1)) && Holds(b, 52, Flat(Heads(ts)))
            && Holds(b, 52 + 40 * (2 * |ts| + 1), Flat(DataParts(ts)))
  {
    hide FileHeader, Flat, Head, DataParts;
    Off40(Heads(ts), |Heads(ts)|);
    OffEnd(Heads(ts));
    var f, h, d := FileHeader(2 * |ts| + 1), Flat(Heads(ts)), Flat(DataParts(ts));
    var b := f + h + d;
    assert b[..52] == f && b[52..52 + |h|] == h && b[52 + |h|..] == d;
  }

  /** What the code reads of section `i`. */
  lemma SectReads(ts: seq<Table>, i: nat)
    requires Good(ts) && TotalSize(ts) < 0x1_0000_0000 && i <= 2 * |ts|
    ensures var img, h := ImageOf(Written(ts)), 52 + 40 * i;
            && NumSects(img) == 2 * |ts| + 1 && SectAt(img, i) == h
            && Type(img, h) == (if i == 0 then 0 else if i % 2 == 1 then 2 else 3)
            && (i > 0 ==> Offset(img, h) == DataAt(ts, i) && Size(img, h) == |DataParts(ts)[i - 1]|)
            && (i % 2 == 1 ==> Link(img, h) == i + 1 && EntSize(img, h) == 16)
  {
    hide ImageOf, Holds, FileHeader, SectHeader, Flat, Off, DataParts, Written, TotalSize, DataAt, Good;
    GoodParts(ts);
    var b, heads := Written(ts), Heads(ts);
    WrittenParts(ts);
    FileHeaderReads(b, 2 * |ts| + 1);
    Off40(heads, i);
    HoldsPart(heads, i);
    HoldsWithin(b, 52, Flat(heads), 40 * i, heads[i]);
    if i == 0 {
      SectHeaderReads(b, 52, 0, 0, 0, 0, 0, 0);
    } else {
      HeadReads(b, 52 + 40 * i, ts, i);
    }
  }

  lemma HeadReads(b: seq<u8>, h: nat, ts: seq<Table>, i: nat)
    requires Good(ts) && TotalSize(ts) < 0x1_0000_0000 && 0 < i <= 2 * |ts| && Holds(b, h, Head(ts, i))
    ensures var img := ImageOf(b);
            && Type(img, h) == (if i % 2 == 1 then 2 else 3)
            && Offset(img, h) == DataAt(ts, i) && Size(img, h) == |DataParts(ts)[i - 1]|
            && (i % 2 == 1 ==> Link(img, h) == i + 1 && EntSize(img, h) == 16)
  {
    hide ImageOf, Holds, SectHeader, DataParts, TotalSize, DataAt, Good;
    GoodParts(ts);
    DataFits(ts, i);
    var size := |DataParts(ts)[i - 1]|;
    if i % 2 == 1 {
      SectHeaderReads(b, h, 2, 0, DataAt(ts, i), size, i + 1, 16);
    } else {
      SectHeaderReads(b, h, 3, 0, DataAt(ts, i), size, 0, 0);
    }
  }

  lemma DataHeld(ts: seq<Table>, i: nat)
    requires Good(ts) && TotalSize(ts) < 0x1_0000_0000 && 0 < i <= 2 * |ts|
    ensures Holds(Written(ts), DataAt(ts, i), DataParts(ts)[i - 1])
  {
    hide Holds, DataParts, Written, Flat, Good;
    WrittenParts(ts);
    HoldsPart(DataParts(ts), i - 1);
    HoldsWithin(Written(ts), 52 + 40 * (2 * |ts| + 1), Flat(DataParts(ts)), Off(DataParts(ts), i - 1), DataParts(ts)[i - 1]);
  }

  // ------------------------------------------------- what the search finds in it

  /** Symbol `i` of table `t` was written with that name. */
  ghost predicate WroteAt(ts: seq<Table>, name: seq<u8>, t: nat, i: nat) {
    t < |ts| && i < |ts[t]| && ts[t][i].name == name
  }

  /** Section 2t + 1 has as many symbols as table `t`, at 16 bytes each, with their types and exactly their names. */
  lemma TableReads(ts: seq<Table>, t: nat, i: nat, name: seq<u8>)
    requires Good(ts) && TotalSize(ts) < 0x1_0000_0000 && t < |ts| && NoZero(name)
    ensures var img, h, str := ImageOf(Written(ts)), 52 + 40 * (2 * t + 1), 52 + 40 * (2 * t + 2);
            && NumSyms(img, h) == |ts[t]| && SymAt(img, h, i) == DataAt(ts, 2 * t + 1) + i * 16
            && (i < |ts[t]| ==> SymType(img, SymAt(img, h, i)) == ts[t][i].ty)
            && (i < |ts[t]| ==> (SymNamed(img, name, h, str, i) <==> ts[t][i].name == name))
  {
    hide ImageOf, Holds, Named, TotalSize, DataAt, SymType, Syms, Strs, NameOff, Written, Good, DataParts, Type, Link, NumSects, SectAt,
         GoodTable, NoZero;
    DataOf(ts, t);
    SectReads(ts, 2 * t + 1);
    SectReads(ts, 2 * t + 2);
    SymsSize(ts[t]);
    Sixteen(|ts[t]|);
    if i < |ts[t]| {
      DataHeld(ts, 2 * t + 1);
      DataHeld(ts, 2 * t + 2);
      SymReads(Written(ts), DataAt(ts, 2 * t + 1), ts[t], i);
      NameReads(Written(ts), DataAt(ts, 2 * t + 2), ts[t], i, name);
    }
  }

  lemma Sixteen(n: nat)
    ensures 16 * n / 16 == n
  {
  }

  /** The image defines a name at the sections and indices where it was written, and nowhere else. */
  lemma DefinesWritten(ts: seq<Table>, name: seq<u8>, s: nat, i: nat)
    requires Good(ts) && TotalSize(ts) < 0x1_0000_0000 && NoZero(name)
    ensures Defines(ImageOf(Written(ts)), name, s, i) <==> s % 2 == 1 && WroteAt(ts, name, s / 2, i)
  {
    hide ImageOf, NumSyms, SymNamed, Type, Link, NumSects, SectAt, TotalSize, Good, Written, DataAt, DataParts;
    SectReads(ts, 0);
    if s <= 2 * |ts| {
      SectReads(ts, s);
      if s % 2 == 1 {
        var t := s / 2;
        assert s == 2 * t + 1;
        SectReads(ts, s + 1);
        TableReads(ts, t, i, name);
      }
    }
  }

  lemma WrittenSound(ts: seq<Table>)
    requires Good(ts) && TotalSize(ts) < 0x1_0000_0000
    ensures SizedTables(ImageOf(Written(ts))) && ValidLinks(ImageOf(Written(ts)))
  {
    hide ImageOf, TotalSize, Good, Written, DataAt, DataParts, Type, Link, EntSize, NumSects, SectAt, Offset, Size;
    SectReads(ts, 0);
    forall s: nat | s <= 2 * |ts|
      ensures var img := ImageOf(Written(ts));
              Type(img, SectAt(img, s)) == 2 ==> EntSize(img, SectAt(img, s)) > 0 && Link(img, SectAt(img, s)) != NumSects(img)
    {
      SectReads(ts, s);
    }
  }

  /** Table `t` answers: its first symbol of that name is number `i`, and has the type if one is asked for. */
  ghost predicate WroteFirst(ts: seq<Table>, name: seq<u8>, ty: int, t: nat, i: nat) {
    && WroteAt(ts, name, t, i) && (forall j: nat :: j < i ==> !WroteAt(ts, name, t, j))
    && (ty > 0 ==> ts[t][i].ty == ty)
  }

  lemma AnswersWritten(ts: seq<Table>, name: seq<u8>, ty: int, s: nat, i: nat)
    requires Good(ts) && TotalSize(ts) < 0x1_0000_0000 && NoZero(name)
    ensures Answers(ImageOf(Written(ts)), name, ty, s, i) <==> s % 2 == 1 && WroteFirst(ts, name, ty, s / 2, i)
  {
    hide ImageOf, Defines, TotalSize, Good, Written, DataAt, DataParts, SymType, SymAt, SectAt, NumSyms, SymNamed;
    forall j: nat ensures Defines(ImageOf(Written(ts)), name, s, j) <==> s % 2 == 1 && WroteAt(ts, name, s / 2, j) {
      DefinesWritten(ts, name, s, j);
    }
    if s % 2 == 1 && WroteAt(ts, name, s / 2, i) {
      assert s == 2 * (s / 2) + 1;
      SectReads(ts, s);
      TableReads(ts, s / 2, i, name);
    }
  }

  /**
   Searching a written image: the search succeeds exactly when in some table the first symbol written with exactly that name
   has the type asked for, if any, and it returns the entry of that symbol in the first such table.
   */
  lemma SearchFindsWritten(ts: seq<Table>, name: seq<u8>, ty: int)
    requires Good(ts) && TotalSize(ts) < 0x1_0000_0000 && NoZero(name)
    ensures var img := ImageOf(Written(ts));
            && SizedTables(img)
            && (Scan(img, name, ty, 0).Some? <==> exists t: nat, i: nat :: WroteFirst(ts, name, ty, t, i))
            && (Scan(img, name, ty, 0).Some? ==> IsFirstWritten(ts, name, ty, Scan(img, name, ty, 0).value))
  {
    hide ImageOf, TotalSize, Good, Written, Answers, WroteFirst, SizedTables, ValidLinks, Scan, IsFirstAnswer, IsFirstWritten;
    var img := ImageOf(Written(ts));
    WrittenSound(ts);
    SearchTypedIff(img, name, ty);
    if t: nat, i: nat :| WroteFirst(ts, name, ty, t, i) {
      assert (2 * t + 1) / 2 == t;
      AnswersWritten(ts, name, ty, 2 * t + 1, i);
    }
    if Answered(img, name, ty) {
      var s: nat, i: nat :| Elf.Answers(img, name, ty, s, i);
      AnswersWritten(ts, name, ty, s, i);
      FirstIsWritten(ts, name, ty, Scan(img, name, ty, 0).value);
    }
  }

  lemma FirstIsWritten(ts: seq<Table>, name: seq<u8>, ty: int, sym: nat)
    requires Good(ts) && TotalSize(ts) < 0x1_0000_0000 && NoZero(name) && IsFirstAnswer(ImageOf(Written(ts)), name, ty, sym)
    ensures IsFirstWritten(ts, name, ty, sym)
  {
    hide ImageOf, TotalSize, Good, Written, DataAt, Answers, WroteFirst, SymAt, SectAt, NumSyms, SymNamed, SymType, Type, Link, Offset,
         Size, EntSize, NumSects, DataParts;
    var img := ImageOf(Written(ts));
    var s: nat, i: nat :| FirstAnswer(img, name, ty, s, i) && sym == SymAt(img, SectAt(img, s), i);
    AnswersWritten(ts, name, ty, s, i);
    var t := s / 2;
    assert s == 2 * t + 1;
    FirstThere(ts, name, ty, s, i);
    WrittenThere(ts, name, ty, t, i);
    SectReads(ts, s);
    TableReads(ts, t, i, name);
  }

  lemma WrittenThere(ts: seq<Table>, name: seq<u8>, ty: int, t: nat, i: nat)
    requires WroteFirst(ts, name, ty, t, i)
    ensures t < |ts| && i < |ts[t]|
  {
  }

  lemma FirstThere(ts: seq<Table>, name: seq<u8>, ty: int, s: nat, i: nat)
    requires Good(ts) && TotalSize(ts) < 0x1_0000_0000 && NoZero(name) && FirstAnswer(ImageOf(Written(ts)), name, ty, s, i)
    ensures forall u: nat, j: nat :: u < s / 2 ==> !WroteFirst(ts, name, ty, u, j)
  {
    hide ImageOf, TotalSize, Good, Written, Answers, WroteFirst;
    forall u: nat, j: nat | u < s / 2 ensures !WroteFirst(ts, name, ty, u, j) {
      assert (2 * u + 1) / 2 == u && 2 * u + 1 < s;
      AnswersWritten(ts, name, ty, 2 * u + 1, j);
    }
  }

  /** `sym` is the address of the first such symbol's entry. */
  ghost predicate IsFirstWritten(ts: seq<Table>, name: seq<u8>, ty: int, sym: nat)
    requires Good(ts)
  {
    exists t: nat, i: nat ::
      && WroteFirst(ts, name, ty, t, i) && (forall u: nat, j: nat :: u < t ==> !WroteFirst(ts, name, ty, u, j))
      && t < |ts| && sym == DataAt(ts, 2 * t + 1) + 16 * i
  }
}
