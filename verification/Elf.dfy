/**
 Symbol search in an ELF image, kernel/elf.c: the tables are counted and then
 fetched by rank, each fetch a new scan of the section headers. Field offsets
 follow the System V ABI, chapter 4.
 */
module Elf {
  import opened Machine

  /** Memory from the image's first byte on, as the C code reads it: by word, by halfword and by byte. */
  datatype Image = Image(word: nat -> nat, half: nat -> nat, byte: nat -> u8)

  const SHT_SYMTAB := 2
  const SHT_STRTAB := 3

  function NumSects(img: Image): nat { img.half(48) }

  /** Where section header `i` is. */
  function SectAt(img: Image, i: nat): nat { img.word(32) + img.half(46) * i }

  function Type(img: Image, h: nat): nat { img.word(h + 4) }
  function Flags(img: Image, h: nat): nat { img.word(h + 8) }
  function Offset(img: Image, h: nat): nat { img.word(h + 16) }
  function Size(img: Image, h: nat): nat { img.word(h + 20) }
  function Link(img: Image, h: nat): nat { img.word(h + 24) }
  function EntSize(img: Image, h: nat): nat { img.word(h + 36) }

  /** The number of symbols in the table with header `h`. */
  function NumSyms(img: Image, h: nat): nat {
    if EntSize(img, h) == 0 then 0 else Size(img, h) / EntSize(img, h)
  }

  /** Where symbol `i` of the table with header `h` is. */
  function SymAt(img: Image, h: nat, i: nat): nat { Offset(img, h) + i * EntSize(img, h) }

  function SymType(img: Image, sym: nat): nat { img.byte(sym + 12) % 16 }

  /** strcmp says equal: the C string at `p` is `name`. */
  predicate Named(img: Image, p: nat, name: seq<u8>) {
    (forall k :: 0 <= k < |name| ==> img.byte(p + k) == name[k]) && img.byte(p + |name|) == 0
  }

  /** Headers and symbols are arrays: each lies one entry size behind the one before. */
  lemma EntriesFollow(img: Image, h: nat, i: nat)
    ensures SectAt(img, 0) == img.word(32) && SectAt(img, i + 1) == SectAt(img, i) + img.half(46)
    ensures SymAt(img, h, 0) == Offset(img, h) && SymAt(img, h, i + 1) == SymAt(img, h, i) + EntSize(img, h)
  {
    assert img.half(46) * (i + 1) == img.half(46) * i + img.half(46);
    assert (i + 1) * EntSize(img, h) == i * EntSize(img, h) + EntSize(img, h);
  }

  /** What a C string can hold. */
  ghost predicate NoZero(name: seq<u8>) {
    forall k :: 0 <= k < |name| ==> name[k] != 0
  }

  /** The bytes at `p` up to the first zero, or the first `n` of them. */
  function CString(img: Image, p: nat, n: nat): seq<u8>
    decreases n
  {
    if n == 0 || img.byte(p) == 0 then [] else [img.byte(p)] + CString(img, p + 1, n - 1)
  }

  /** A C string is equal to a name exactly when its bytes up to the first zero are the name, no more and no less. */
  lemma {:induction false} NamedIff(img: Image, p: nat, name: seq<u8>)
    requires NoZero(name)
    ensures Named(img, p, name) <==> CString(img, p, |name| + 1) == name
    decreases |name|
  {
    if name != [] {
      var rest := name[1..];
      NamedIff(img, p + 1, rest);
      NamedTail(img, p, name);
      var c := CString(img, p, |name| + 1);
      if img.byte(p) != 0 {
        assert c[0] == img.byte(p) && c[1..] == CString(img, p + 1, |name|);
        assert name == [name[0]] + rest;
      }
    }
  }

  lemma NamedTail(img: Image, p: nat, name: seq<u8>)
    requires name != []
    ensures Named(img, p, name) <==> img.byte(p) == name[0] && Named(img, p + 1, name[1..])
  {
    var rest := name[1..];
    if Named(img, p, name) {
      assert img.byte(p + 0) == name[0];
      forall k | 0 <= k < |rest| ensures img.byte(p + 1 + k) == rest[k] {
        assert img.byte(p + (k + 1)) == name[k + 1];
      }
      assert p + 1 + |rest| == p + |name|;
    }
    if img.byte(p) == name[0] && Named(img, p + 1, rest) {
      forall k | 0 <= k < |name| ensures img.byte(p + k) == name[k] {
        if k > 0 {
          assert img.byte(p + 1 + (k - 1)) == rest[k - 1];
        }
      }
      assert p + 1 + |rest| == p + |name|;
    }
  }

  /** strcmp of the string at `p` with `name`, as far as the zero result goes. */
  method StrCmp(img: Image, p: nat, name: seq<u8>) returns (equal: bool)
    requires NoZero(name)
    ensures equal <==> CString(img, p, |name| + 1) == name
    ensures equal <==> Named(img, p, name)
  {
    NamedIff(img, p, name);
    var i := 0;
    while img.byte(p + i) != 0
      invariant 0 <= i <= |name| && forall k :: 0 <= k < i ==> img.byte(p + k) == name[k]
      decreases |name| - i
    {
      if i == |name| || img.byte(p + i) != name[i] {
        return false;
      }
      i := i + 1;
    }
    assert i < |name| ==> img.byte(p + i) != name[i];
    return i == |name|;
  }

  /** Symbol `i` of the table at `h` has that name in the string table at `str`. */
  predicate SymNamed(img: Image, name: seq<u8>, h: nat, str: nat, i: nat) {
    Named(img, Offset(img, str) + img.word(SymAt(img, h, i)), name)
  }

  lemma SymNamedIs(img: Image, name: seq<u8>, h: nat, str: nat, i: nat)
    ensures SymNamed(img, name, h, str, i) <==> Named(img, Offset(img, str) + img.word(SymAt(img, h, i)), name)
  {
  }

  // ------------------------------------------------------- sections by rank

  predicate Typed(img: Image, ty: nat, i: nat) { Type(img, SectAt(img, i)) == ty }

  /** How many sections from `i` on have type `ty`. */
  function Count(img: Image, ty: nat, i: nat): nat
    decreases NumSects(img) - i
  {
    if i >= NumSects(img) then 0 else (if Typed(img, ty, i) then 1 else 0) + Count(img, ty, i + 1)
  }

  /** The section of rank `k` among those of type `ty` from `i` on. */
  function Nth(img: Image, ty: nat, i: nat, k: nat): (s: nat)
    requires k < Count(img, ty, i)
    ensures i <= s < NumSects(img) && Typed(img, ty, s)
    decreases NumSects(img) - i
  {
    if !Typed(img, ty, i) then Nth(img, ty, i + 1, k) else if k == 0 then i else Nth(img, ty, i + 1, k - 1)
  }

  /** Some section of type `ty` from `i` on has other flags. */
  predicate Mixed(img: Image, ty: nat, flags: int, i: nat)
    decreases NumSects(img) - i
  {
    i < NumSects(img) && ((Typed(img, ty, i) && Flags(img, SectAt(img, i)) != flags) || Mixed(img, ty, flags, i + 1))
  }

  /** elf32_get_sections: the number of sections of a type; zero if flags are asked for and one of them differs. */
  method GetSections(img: Image, ty: nat, flags: int) returns (n: nat)
    ensures n == if flags >= 0 && Mixed(img, ty, flags, 0) then 0 else Count(img, ty, 0)
  {
    hide Typed, NumSects, Flags, SectAt;
    n := 0;
    var i := 0;
    while i < NumSects(img)
      invariant i <= NumSects(img) && n + Count(img, ty, i) == Count(img, ty, 0)
      invariant flags >= 0 ==> Mixed(img, ty, flags, 0) == Mixed(img, ty, flags, i)
    {
      if Typed(img, ty, i) {
        if flags >= 0 && Flags(img, SectAt(img, i)) != flags {
          return 0;
        }
        n := n + 1;
      }
      i := i + 1;
    }
  }

  /** How many sections from `i` on have the type and the flags, which is what elf32_get_sections is documented to count. */
  function CountWith(img: Image, ty: nat, flags: int, i: nat): nat
    decreases NumSects(img) - i
  {
    if i >= NumSects(img) then 0
    else (if Typed(img, ty, i) && Flags(img, SectAt(img, i)) == flags then 1 else 0) + CountWith(img, ty, flags, i + 1)
  }

  /** The count is the documented one exactly when no section of the type has other flags, or none has these. */
  lemma {:induction false} SectionsAsDocumentedIff(img: Image, ty: nat, flags: int, i: nat)
    ensures !Mixed(img, ty, flags, i) ==> Count(img, ty, i) == CountWith(img, ty, flags, i)
    ensures (if Mixed(img, ty, flags, i) then 0 else Count(img, ty, i)) == CountWith(img, ty, flags, i) <==>
            !Mixed(img, ty, flags, i) || CountWith(img, ty, flags, i) == 0
    decreases NumSects(img) - i
  {
    if i < NumSects(img) {
      SectionsAsDocumentedIff(img, ty, flags, i + 1);
    }
  }

  /** Flags are asked for, and one of the first `n` sections has the type with other flags. */
  ghost predicate OtherFlags(img: Image, ty: nat, flags: int, n: nat) {
    flags >= 0 && exists s :: 0 <= s < n && Typed(img, ty, s) && Flags(img, SectAt(img, s)) != flags
  }

  /** elf32_get_sections_i: the section of rank `index`, unless one of the type with other flags comes no later. */
  method GetSectionsI(img: Image, index: nat, ty: nat, flags: int) returns (r: Option<nat>)
    ensures index < Count(img, ty, 0) ==>
              var s := Nth(img, ty, 0, index); r == if OtherFlags(img, ty, flags, s + 1) then None else Some(SectAt(img, s))
    ensures index >= Count(img, ty, 0) ==> r == None
  {
    hide Typed, NumSects, SectAt, Flags;
    var left: nat := index;
    var i := 0;
    while i < NumSects(img)
      invariant i <= NumSects(img) && left <= index && index - left + Count(img, ty, i) == Count(img, ty, 0)
      invariant left < Count(img, ty, i) ==> Nth(img, ty, 0, index) == Nth(img, ty, i, left)
      invariant !OtherFlags(img, ty, flags, i)
    {
      if Typed(img, ty, i) {
        if flags >= 0 && Flags(img, SectAt(img, i)) != flags {
          return None;
        }
        if left == 0 {
          return Some(SectAt(img, i));
        }
        left := left - 1;
      }
      i := i + 1;
    }
    return None;
  }

  /** elf32_get_section_i: the index may be one past the last section. */
  function GetSectionI(img: Image, index: nat): (r: Option<nat>)
    ensures r.Some? <==> index <= NumSects(img)
  {
    if NumSects(img) < index then None else Some(SectAt(img, index))
  }

  // ------------------------------------------------------------- symbols

  /** The first of the symbols [i, n) with that name; `n` when there is none. */
  function FirstNamed(img: Image, name: seq<u8>, h: nat, str: nat, i: nat, n: nat): (k: nat)
    requires i <= n
    ensures i <= k <= n && (k < n ==> SymNamed(img, name, h, str, k))
    ensures forall j :: i <= j < k ==> !SymNamed(img, name, h, str, j)
    decreases n - i
  {
    if i == n || SymNamed(img, name, h, str, i) then i else FirstNamed(img, name, h, str, i + 1, n)
  }

  /** What one table yields: its first symbol of that name, unless a type is asked for and differs. */
  function InTable(img: Image, name: seq<u8>, ty: int, h: nat, str: nat): Option<nat>
  {
    if Type(img, h) != SHT_SYMTAB || Type(img, str) != SHT_STRTAB then None
    else
      var k := FirstNamed(img, name, h, str, 0, NumSyms(img, h));
      if k == NumSyms(img, h) || (ty > 0 && SymType(img, SymAt(img, h, k)) != ty) then None
      else Some(SymAt(img, h, k))
  }

  /** elf32_get_symbol_by_name. */
  method GetSymbolByName(img: Image, name: seq<u8>, ty: int, h: nat, str: nat) returns (r: Option<nat>)
    requires Type(img, h) == SHT_SYMTAB && Type(img, str) == SHT_STRTAB ==> EntSize(img, h) > 0
    requires NoZero(name)
    ensures r == InTable(img, name, ty, h, str)
  {
    if Type(img, h) != SHT_SYMTAB || Type(img, str) != SHT_STRTAB {
      return None;
    }
    hide SymAt, SymNamed, Named, SymType, CString, NoZero, NumSyms, EntSize, Size, Offset, Type;
    SymsAre(img, h);
    var i := 0;
    while i < Size(img, h) / EntSize(img, h)
      invariant i <= NumSyms(img, h) == Size(img, h) / EntSize(img, h)
      invariant FirstNamed(img, name, h, str, 0, NumSyms(img, h)) == FirstNamed(img, name, h, str, i, NumSyms(img, h))
    {
      var sym := SymAt(img, h, i);
      var same := StrCmp(img, Offset(img, str) + img.word(sym), name);
      SymNamedIs(img, name, h, str, i);
      if same {
        if ty > 0 && SymType(img, sym) != ty {
          return None;
        }
        return Some(sym);
      }
      i := i + 1;
    }
    return None;
  }

  lemma SymsAre(img: Image, h: nat)
    requires EntSize(img, h) > 0
    ensures NumSyms(img, h) == Size(img, h) / EntSize(img, h)
  {
  }

  /** Symbol tables whose linked section is a string table have entries of some size. */
  ghost predicate SizedTables(img: Image) {
    forall s :: 0 <= s < NumSects(img) && Typed(img, SHT_SYMTAB, s) ==> EntSize(img, SectAt(img, s)) > 0
  }

  /** What section `s` yields to the search. */
  ghost function Hit(img: Image, name: seq<u8>, ty: int, s: nat): Option<nat>
    requires SizedTables(img) && s < NumSects(img)
  {
    if !Typed(img, SHT_SYMTAB, s) || GetSectionI(img, Link(img, SectAt(img, s))).None? then None
    else InTable(img, name, ty, SectAt(img, s), GetSectionI(img, Link(img, SectAt(img, s))).value)
  }

  /** The simple search: one pass over the sections, the first hit wins. */
  ghost function Scan(img: Image, name: seq<u8>, ty: int, s: nat): Option<nat>
    requires SizedTables(img) && s <= NumSects(img)
    decreases NumSects(img) - s
  {
    if s == NumSects(img) then None
    else if Hit(img, name, ty, s).Some? then Hit(img, name, ty, s)
    else Scan(img, name, ty, s + 1)
  }

  /** Nothing before the next table changes the scan; after the last one it finds nothing. */
  lemma {:induction false} ScanSkips(img: Image, name: seq<u8>, ty: int, s: nat)
    requires SizedTables(img) && s <= NumSects(img)
    ensures Count(img, SHT_SYMTAB, s) == 0 ==> Scan(img, name, ty, s).None?
    ensures Count(img, SHT_SYMTAB, s) > 0 ==>
              Scan(img, name, ty, s) == Scan(img, name, ty, Nth(img, SHT_SYMTAB, s, 0))
    decreases NumSects(img) - s
  {
    hide Typed, NumSects, SectAt, Link, InTable, SizedTables, GetSectionI;
    if s < NumSects(img) && !Typed(img, SHT_SYMTAB, s) {
      ScanSkips(img, name, ty, s + 1);
    }
  }

  /** The table of rank `k + 1` is the first one after the table of rank `k`. */
  lemma {:induction false} NthNext(img: Image, ty: nat, i: nat, k: nat)
    requires k < Count(img, ty, i)
    ensures var s := Nth(img, ty, i, k);
            && Count(img, ty, s + 1) == Count(img, ty, i) - k - 1
            && (k + 1 < Count(img, ty, i) ==> Nth(img, ty, i, k + 1) == Nth(img, ty, s + 1, 0))
    decreases NumSects(img) - i
  {
    hide Typed, NumSects;
    if !Typed(img, ty, i) {
      NthNext(img, ty, i + 1, k);
    } else if k > 0 {
      NthNext(img, ty, i + 1, k - 1);
    }
  }

  /** elf32_search_symbol: the count-and-rank loop does what the simple search does. */
  method SearchSymbol(img: Image, name: seq<u8>, ty: int) returns (r: Option<nat>)
    requires SizedTables(img) && NoZero(name)
    ensures r == Scan(img, name, ty, 0)
  {
    hide Typed, NumSects, SectAt, Link, InTable, GetSectionI, Count, Nth, Type, EntSize;
    var i := 0;
    ghost var all: nat, from: nat := Count(img, SHT_SYMTAB, 0), 0;
    var n := GetSections(img, SHT_SYMTAB, -1);
    while i < n
      invariant i <= n == all && from <= NumSects(img) && Count(img, SHT_SYMTAB, from) == all - i
      invariant i < all ==> Nth(img, SHT_SYMTAB, 0, i) == Nth(img, SHT_SYMTAB, from, 0)
      invariant Scan(img, name, ty, 0) == Scan(img, name, ty, from)
    {
      ScanSkips(img, name, ty, from);
      NthNext(img, SHT_SYMTAB, 0, i);
      ghost var s := Nth(img, SHT_SYMTAB, 0, i);
      var table := GetSectionsI(img, i, SHT_SYMTAB, -1);
      var str := GetSectionI(img, Link(img, table.value));
      if str.Some? {
        r := GetSymbolByName(img, name, ty, table.value, str.value);
        if r.Some? {
          return;
        }
      }
      from := s + 1;
      i := i + 1;
      n := GetSections(img, SHT_SYMTAB, -1);
    }
    ScanSkips(img, name, ty, from);
    return None;
  }

  // ------------------------------------------------------ what the search finds

  /** Section `s` is a symbol table with a string table, and its symbol `i` has that name. */
  ghost predicate Defines(img: Image, name: seq<u8>, s: nat, i: nat) {
    && s < NumSects(img) && Typed(img, SHT_SYMTAB, s) && Link(img, SectAt(img, s)) < NumSects(img)
    && Typed(img, SHT_STRTAB, Link(img, SectAt(img, s)))
    && i < NumSyms(img, SectAt(img, s))
    && SymNamed(img, name, SectAt(img, s), SectAt(img, Link(img, SectAt(img, s))), i)
  }

  /** No symbol table links to the section after the last one, which the code would read past the headers. */
  ghost predicate ValidLinks(img: Image) {
    forall s :: 0 <= s < NumSects(img) && Typed(img, SHT_SYMTAB, s) ==> Link(img, SectAt(img, s)) != NumSects(img)
  }

  /** Symbol `i` is the first of that name in table `s`. */
  ghost predicate FirstInTable(img: Image, name: seq<u8>, s: nat, i: nat) {
    Defines(img, name, s, i) && forall j: nat :: j < i ==> !Defines(img, name, s, j)
  }

  /** Table `s` answers with symbol `i`: its first symbol of that name, of the type if one is asked for. */
  ghost predicate Answers(img: Image, name: seq<u8>, ty: int, s: nat, i: nat) {
    FirstInTable(img, name, s, i) && (ty > 0 ==> SymType(img, SymAt(img, SectAt(img, s), i)) == ty)
  }

  /** A table is given up at its first symbol of the name: it yields a symbol exactly when that one has the type. */
  lemma TypedHitIff(img: Image, name: seq<u8>, ty: int, s: nat, i: nat)
    requires SizedTables(img) && ValidLinks(img) && s < NumSects(img) && FirstInTable(img, name, s, i)
    ensures Hit(img, name, ty, s) == if Answers(img, name, ty, s, i) then Some(SymAt(img, SectAt(img, s), i)) else None
  {
    hide SymAt, SymNamed, NumSyms, SymType;
    var h := SectAt(img, s);
    var k := FirstNamed(img, name, h, SectAt(img, Link(img, h)), 0, NumSyms(img, h));
    assert k <= i;
    assert Defines(img, name, s, k);
  }

  /** A section that defines no symbol of the name yields nothing. */
  lemma NoHit(img: Image, name: seq<u8>, ty: int, s: nat)
    requires SizedTables(img) && ValidLinks(img) && s < NumSects(img) && forall i: nat :: !Defines(img, name, s, i)
    ensures Hit(img, name, ty, s).None?
  {
    hide SymAt, SymNamed, NumSyms, SymType;
    var h := SectAt(img, s);
    var k := FirstNamed(img, name, h, SectAt(img, Link(img, h)), 0, NumSyms(img, h));
    assert !Defines(img, name, s, k);
  }

  lemma {:induction false} SomeFirst(img: Image, name: seq<u8>, s: nat, n: nat) returns (i: nat)
    requires Defines(img, name, s, n)
    ensures FirstInTable(img, name, s, i)
    decreases n
  {
    hide Defines;
    if j: nat :| j < n && Defines(img, name, s, j) {
      i := SomeFirst(img, name, s, j);
    } else {
      i := n;
    }
  }

  /** What section `s` yields, by the symbols it defines. */
  lemma HitIff(img: Image, name: seq<u8>, ty: int, s: nat)
    requires SizedTables(img) && ValidLinks(img) && s < NumSects(img)
    ensures Hit(img, name, ty, s).None? ==> forall i: nat :: !Answers(img, name, ty, s, i)
    ensures Hit(img, name, ty, s).Some? ==>
              exists i: nat :: Answers(img, name, ty, s, i) && Hit(img, name, ty, s) == Some(SymAt(img, SectAt(img, s), i))
  {
    hide Hit, Defines, SymAt, SectAt, SizedTables, ValidLinks, NumSects, SymType;
    if n: nat :| Defines(img, name, s, n) {
      var i := SomeFirst(img, name, s, n);
      TypedHitIff(img, name, ty, s, i);
      forall j: nat | Answers(img, name, ty, s, j) ensures j == i {
      }
    } else {
      NoHit(img, name, ty, s);
    }
  }

  /** Table `s` is the first that answers, and it answers with symbol `i`. */
  ghost predicate FirstAnswer(img: Image, name: seq<u8>, ty: int, s: nat, i: nat) {
    Answers(img, name, ty, s, i) && forall t: nat, j: nat :: t < s ==> !Answers(img, name, ty, t, j)
  }

  ghost predicate Answered(img: Image, name: seq<u8>, ty: int) {
    exists s: nat, i: nat :: Answers(img, name, ty, s, i)
  }

  ghost predicate IsFirstAnswer(img: Image, name: seq<u8>, ty: int, sym: nat) {
    exists s: nat, i: nat :: FirstAnswer(img, name, ty, s, i) && sym == SymAt(img, SectAt(img, s), i)
  }

  /**
   The whole search, whatever type is asked for: it succeeds exactly when the first symbol of the name in some table
   has the type, and returns that symbol of the first such table. A later symbol of the same table is never tried.
   */
  lemma SearchTypedIff(img: Image, name: seq<u8>, ty: int)
    requires SizedTables(img) && ValidLinks(img)
    ensures Scan(img, name, ty, 0).Some? <==> Answered(img, name, ty)
    ensures Scan(img, name, ty, 0).Some? ==> IsFirstAnswer(img, name, ty, Scan(img, name, ty, 0).value)
  {
    TypedScanFrom(img, name, ty, 0);
  }

  lemma {:induction false} TypedScanFrom(img: Image, name: seq<u8>, ty: int, from: nat)
    requires SizedTables(img) && ValidLinks(img) && from <= NumSects(img)
    requires forall t: nat, j: nat :: t < from ==> !Answers(img, name, ty, t, j)
    ensures Scan(img, name, ty, from).Some? <==> Answered(img, name, ty)
    ensures Scan(img, name, ty, from).Some? ==> IsFirstAnswer(img, name, ty, Scan(img, name, ty, from).value)
    decreases NumSects(img) - from
  {
    if from == NumSects(img) {
      forall s: nat, i: nat ensures !Answers(img, name, ty, s, i) {
      }
    } else {
      HitIff(img, name, ty, from);
      hide Hit, Answers, SymAt, SectAt, SizedTables, ValidLinks, NumSects;
      if Hit(img, name, ty, from).Some? {
        var i: nat :| Answers(img, name, ty, from, i) && Hit(img, name, ty, from) == Some(SymAt(img, SectAt(img, from), i));
        assert FirstAnswer(img, name, ty, from, i);
      } else {
        TypedScanFrom(img, name, ty, from + 1);
      }
    }
  }

  /** With no type asked for, the search succeeds exactly when some table defines the name at all. */
  lemma SearchFindsFirst(img: Image, name: seq<u8>, ty: int)
    requires SizedTables(img) && ValidLinks(img) && ty <= 0
    ensures Scan(img, name, ty, 0).Some? <==> exists s: nat, i: nat :: Defines(img, name, s, i)
    ensures Scan(img, name, ty, 0).Some? ==> IsFirstAnswer(img, name, ty, Scan(img, name, ty, 0).value)
  {
    hide Defines, Scan, SizedTables, ValidLinks, SymType, SymAt, SectAt;
    SearchTypedIff(img, name, ty);
    if s: nat, n: nat :| Defines(img, name, s, n) {
      var i := SomeFirst(img, name, s, n);
      assert Answers(img, name, ty, s, i);
    }
    if Answered(img, name, ty) {
      var s: nat, i: nat :| Answers(img, name, ty, s, i);
      assert Defines(img, name, s, i);
    }
  }
}
