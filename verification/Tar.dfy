/**
 The ustar archive of the RAM disk: tar_getsize and tar_parse of
 kernel/filesystem/ramfs.c, against a writer of the "ustar Interchange Format"
 (the pax utility of POSIX.1, IEEE Std 1003.1). Memory is a sequence of chars
 standing for bytes.
 */
module Tar {
  import opened Machine

  // ---------------------------------------------------------------- octal sizes

  /** A byte as the signed char of the C code, less '0'. */
  function Digit(c: char): int {
    (if c as int < 128 then c as int else c as int - 256) - 48
  }

  function Octal(s: string): int {
    if s == "" then 0 else 8 * Octal(s[..|s| - 1]) + Digit(s[|s| - 1])
  }

  function Pow8(k: nat): nat {
    if k == 0 then 1 else 8 * Pow8(k - 1)
  }

  lemma {:induction false} OctalPrepend(c: char, b: string)
    ensures Octal([c] + b) == Digit(c) * Pow8(|b|) + Octal(b)
    decreases |b|
  {
    if b == "" {
      assert [c] + b == [c] && [c][..0] == "";
    } else {
      var b' := b[..|b| - 1];
      assert ([c] + b)[..|b|] == [c] + b';
      OctalPrepend(c, b');
      Scale(Digit(c), Pow8(|b'|));
    }
  }

  lemma Scale(d: int, p: int)
    ensures 8 * (d * p) == d * (8 * p)
  {
  }

  lemma Pow8Values()
    ensures forall k: nat :: k <= 10 ==> Pow8(k) <= 0x4000_0000
    ensures Pow8(11) == 0x2_0000_0000
  {
    assert Pow8(4) == 4096;
    assert Pow8(8) == 0x100_0000;
    assert Pow8(10) == 0x4000_0000;
    assert Pow8(11) == 0x2_0000_0000;
    forall k: nat | k <= 10 ensures Pow8(k) <= 0x4000_0000 {
      Pow8Monotone(k, 10);
    }
  }

  lemma {:induction false} Pow8Monotone(j: nat, k: nat)
    requires j <= k
    ensures Pow8(j) <= Pow8(k)
    decreases k - j
  {
    if j < k {
      Pow8Monotone(j, k - 1);
    }
  }

  /** tar_getsize: the value of the eleven octal digits, modulo 2^32. */
  method TarGetSize(field: string) returns (size: u32)
    requires |field| >= 11
    ensures size == Octal(field[..11]) % 0x1_0000_0000
  {
    size := 0;
    var j, count: u32 := 11, 1;
    ghost var digits := field[..11];
    assert digits[11..] == "";
    hide Octal, Pow8;
    Starts();
    while j > 0
      invariant 0 <= j <= 11 && (j > 0 ==> count == Pow8(11 - j))
      invariant size == Octal(digits[j..]) % 0x1_0000_0000
    {
      SizeStep(digits, j, size, count);
      size := (size + Digit(field[j - 1]) * count) % 0x1_0000_0000;
      count := count * 8 % 0x1_0000_0000;
      j := j - 1;
    }
    assert digits[0..] == digits;
  }

  lemma Starts()
    ensures Octal("") == 0 && Pow8(0) == 1
  {
  }

  /** One turn of the loop of tar_getsize. */
  lemma SizeStep(s: string, j: nat, size: u32, count: u32)
    requires |s| == 11 && 0 < j <= 11 && count == Pow8(11 - j) && size == Octal(s[j..]) % 0x1_0000_0000
    ensures (size + Digit(s[j - 1]) * count) % 0x1_0000_0000 == Octal(s[j - 1..]) % 0x1_0000_0000
    ensures j > 1 ==> count * 8 % 0x1_0000_0000 == Pow8(12 - j)
  {
    CountStep(j, count);
    hide Octal, Pow8, Digit;
    assert s[j - 1..] == [s[j - 1]] + s[j..];
    OctalPrepend(s[j - 1], s[j..]);
    AddModulo(Octal(s[j..]), Digit(s[j - 1]) * count);
  }

  lemma CountStep(j: nat, count: u32)
    requires 0 < j <= 11 && count == Pow8(11 - j)
    ensures j > 1 ==> count * 8 % 0x1_0000_0000 == Pow8(12 - j)
  {
    Pow8Values();
  }

  lemma AddModulo(a: int, b: int)
    ensures (a % 0x1_0000_0000 + b) % 0x1_0000_0000 == (a + b) % 0x1_0000_0000
  {
  }

  /** `n` in octal, `w` digits wide, as a ustar writer prints it. */
  function PrintOctal(n: nat, w: nat): (s: string)
    ensures |s| == w
  {
    if w == 0 then "" else PrintOctal(n / 8, w - 1) + [(n % 8 + 48) as char]
  }

  /** Reading undoes printing. */
  lemma {:induction false} OctalRoundTrip(n: nat, w: nat)
    requires n < Pow8(w)
    ensures Octal(PrintOctal(n, w)) == n
    decreases w
  {
    if w > 0 {
      OctalRoundTrip(n / 8, w - 1);
      var s := PrintOctal(n, w);
      assert s[..w - 1] == PrintOctal(n / 8, w - 1);
    }
  }

  /** tar_getsize inverts octal printing for every size below 2^32. */
  lemma SizeRoundTrip(n: u32)
    ensures Octal(PrintOctal(n, 11)) % 0x1_0000_0000 == n
  {
    Pow8Values();
    OctalRoundTrip(n, 11);
  }

  // -------------------------------------------------------------- the archive

  /** An archive member; `meta`, `times` and `rest` are the header fields the kernel does not read. */
  datatype Entry = Entry(name: string, typeflag: char, data: string, meta: string, times: string, rest: string)

  ghost predicate Good(e: Entry) {
    && 0 < |e.name| < 100 && (forall i :: 0 <= i < |e.name| ==> e.name[i] != NUL)
    && |e.data| < 0x1_0000_0000 && |e.meta| == 24 && |e.times| == 20 && |e.rest| == 355
  }

  function Zeros(n: nat): string { seq(n, _ => NUL) }

  /** The 512-byte header: name at 0, size at 124, typeflag at 156. */
  function Header(e: Entry): (h: string)
    requires Good(e)
    ensures |h| == 512
  {
    e.name + Zeros(100 - |e.name|) + e.meta + PrintOctal(|e.data|, 11) + [NUL] + e.times + [e.typeflag] + e.rest
  }

  /** Bytes from one header to the next, as tar_parse computes it. */
  function Span(size: nat): nat {
    (size / 512 + 1) * 512 + if size % 512 != 0 then 512 else 0
  }

  function Padding(size: nat): nat {
    if size % 512 == 0 then 0 else 512 - size % 512
  }

  lemma SpanIsBlock(size: nat)
    ensures Span(size) == 512 + size + Padding(size)
  {
  }

  function Member(e: Entry): (b: string)
    requires Good(e)
    ensures |b| == Span(|e.data|)
  {
    SpanIsBlock(|e.data|);
    Header(e) + e.data + Zeros(Padding(|e.data|))
  }

  /** The ustar writer: members one after the other, then a zero block. */
  function Archive(es: seq<Entry>): (s: string)
    requires forall i :: 0 <= i < |es| ==> Good(es[i])
    ensures |s| >= 512
  {
    if es == [] then Zeros(512) else Member(es[0]) + Archive(es[1..])
  }

  /** Where the writer put each header, from address `a` on. */
  function Addresses(a: nat, es: seq<Entry>): (s: seq<nat>)
    ensures |s| == |es|
    decreases |es|
  {
    if es == [] then [] else [a] + Addresses(a + Span(|es[0].data|), es[1..])
  }

  /** `mem` holds `s` at address `a`. */
  ghost predicate Holds(mem: string, a: nat, s: string) {
    a + |s| <= |mem| && mem[a..a + |s|] == s
  }

  lemma HoldsParts(mem: string, a: nat, s: string, t: string)
    requires Holds(mem, a, s + t)
    ensures Holds(mem, a, s) && Holds(mem, a + |s|, t)
  {
    assert mem[a..a + |s|] == (s + t)[..|s|] == s;
    assert mem[a + |s|..a + |s| + |t|] == (s + t)[|s|..] == t;
  }

  function SizeAt(mem: string, a: nat): (n: u32)
    requires a + 512 <= |mem|
  {
    Octal(mem[a + 124..a + 135]) % 0x1_0000_0000
  }

  /** The C string at address `a`. */
  function CString(mem: string, a: nat): string
    decreases |mem| - a
  {
    if a >= |mem| || mem[a] == NUL then "" else [mem[a]] + CString(mem, a + 1)
  }

  lemma {:induction false} CStringReads(mem: string, a: nat, s: string)
    requires Holds(mem, a, s) && (forall i :: 0 <= i < |s| ==> s[i] != NUL)
    requires a + |s| < |mem| && mem[a + |s|] == NUL
    ensures CString(mem, a) == s
    decreases |s|
  {
    if s != "" {
      assert s == mem[a..a + |s|];
      assert mem[a + 1..a + |s|] == s[1..];
      CStringReads(mem, a + 1, s[1..]);
    }
  }

  /** The fields the kernel reads from a header are those the writer put there. */
  lemma HeaderReads(mem: string, a: nat, e: Entry)
    requires Good(e) && Holds(mem, a, Header(e))
    ensures CString(mem, a) == e.name && mem[a] != NUL
    ensures SizeAt(mem, a) == |e.data| && mem[a + 156] == e.typeflag
  {
    var size := PrintOctal(|e.data|, 11);
    var h0 := e.name + Zeros(100 - |e.name|) + e.meta;
    var h1 := h0 + size + [NUL] + e.times;
    assert Header(e) == h1 + ([e.typeflag] + e.rest);
    HoldsParts(mem, a, h1, [e.typeflag] + e.rest);
    assert mem[a + 156] == e.typeflag;
    assert h1 == h0 + (size + ([NUL] + e.times));
    HoldsParts(mem, a, h0, size + ([NUL] + e.times));
    HoldsParts(mem, a + 124, size, [NUL] + e.times);
    SizeRoundTrip(|e.data|);
    assert h0 == e.name + (Zeros(100 - |e.name|) + e.meta);
    HoldsParts(mem, a, e.name, Zeros(100 - |e.name|) + e.meta);
    HoldsParts(mem, a + |e.name|, Zeros(100 - |e.name|), e.meta);
    assert mem[a + |e.name|] == Zeros(100 - |e.name|)[0];
    CStringReads(mem, a, e.name);
  }

  // ------------------------------------------------------------------ tar_parse

  /** The headers tar_parse records from address `a` on: up to an empty name, or past `end`. */
  function Walk(mem: string, a: nat, end: nat): (hs: seq<nat>)
    requires a + 512 <= |mem| && end + 512 <= |mem|
    decreases |mem| - a
  {
    var next := a + Span(SizeAt(mem, a));
    if mem[a] == NUL then [] else [a] + if next > end then [] else Walk(mem, next, end)
  }

  /** The walk ends at an empty name. One that runs past `end` does not count its last header. */
  predicate Ends(mem: string, a: nat, end: nat)
    requires a + 512 <= |mem| && end + 512 <= |mem|
    decreases |mem| - a
  {
    var next := a + Span(SizeAt(mem, a));
    mem[a] == NUL || (next <= end && Ends(mem, next, end))
  }

  /** No header on the way makes the uint32_t address wrap. */
  predicate NoWrap(mem: string, a: nat, end: nat)
    requires a + 512 <= |mem| && end + 512 <= |mem|
    decreases |mem| - a
  {
    var next := a + Span(SizeAt(mem, a));
    mem[a] == NUL || (next < 0x1_0000_0000 && (next > end || NoWrap(mem, next, end)))
  }

  /** One step of the walk. */
  lemma WalkStep(mem: string, a: nat, end: nat, next: nat)
    requires a + 512 <= |mem| && end + 512 <= |mem| && next == a + Span(SizeAt(mem, a))
    ensures mem[a] == NUL ==> Walk(mem, a, end) == [] && Ends(mem, a, end) && NoWrap(mem, a, end)
    ensures mem[a] != NUL && next > end ==>
              Walk(mem, a, end) == [a] && !Ends(mem, a, end) && (NoWrap(mem, a, end) <==> next < 0x1_0000_0000)
    ensures mem[a] != NUL && next <= end ==>
              && Walk(mem, a, end) == [a] + Walk(mem, next, end) && Ends(mem, a, end) == Ends(mem, next, end)
              && (NoWrap(mem, a, end) <==> next < 0x1_0000_0000 && NoWrap(mem, next, end))
  {
    hide SizeAt, Span;
  }

  /** Header `i` of a walk: the first lies at its start, each further one behind the member before it and not past the end. */
  ghost predicate Follows(mem: string, a: nat, end: nat, w: seq<nat>, i: nat)
    requires i < |w|
  {
    && w[i] + 512 <= |mem| && mem[w[i]] != NUL
    && if i == 0 then w[i] == a else w[i - 1] + 512 <= |mem| && w[i] == w[i - 1] + Span(SizeAt(mem, w[i - 1])) <= end
  }

  /** The walk stops at the end or at the first header without a name, and at nothing else; Ends tells the two apart. */
  ghost predicate Stops(mem: string, a: nat, end: nat, w: seq<nat>) {
    if w == [] then a + 512 <= |mem| && mem[a] == NUL
    else
      var z := w[|w| - 1];
      z + 512 <= |mem| && end + 512 <= |mem| && var next := z + Span(SizeAt(mem, z)); next > end || mem[next] == NUL
  }

  lemma {:induction false} WalkIs(mem: string, a: nat, end: nat)
    requires a + 512 <= |mem| && end + 512 <= |mem|
    ensures var w := Walk(mem, a, end);
            && (forall i :: 0 <= i < |w| ==> Follows(mem, a, end, w, i)) && Stops(mem, a, end, w)
            && (Ends(mem, a, end) <==> EndsInside(mem, end, w))
    decreases |mem| - a
  {
    hide Span, SizeAt;
    var next := a + Span(SizeAt(mem, a));
    if mem[a] != NUL && next <= end {
      SpanPositive(SizeAt(mem, a));
      WalkIs(mem, next, end);
      var w, v := Walk(mem, a, end), Walk(mem, next, end);
      assert w == [a] + v && Ends(mem, a, end) == Ends(mem, next, end);
      hide Walk, Ends;
      OneMore(mem, a, next, end, v);
    }
  }

  /** The last member of the walk ends at or before the end. */
  ghost predicate EndsInside(mem: string, end: nat, w: seq<nat>) {
    w == [] || (w[|w| - 1] + 512 <= |mem| && w[|w| - 1] + Span(SizeAt(mem, w[|w| - 1])) <= end)
  }

  /** One member before a walk. */
  lemma OneMore(mem: string, a: nat, next: nat, end: nat, v: seq<nat>)
    requires a + 512 <= |mem| && end + 512 <= |mem| && mem[a] != NUL && next == a + Span(SizeAt(mem, a)) <= end
    requires (forall i :: 0 <= i < |v| ==> Follows(mem, next, end, v, i)) && Stops(mem, next, end, v)
    ensures var w := [a] + v;
            && (forall i :: 0 <= i < |w| ==> Follows(mem, a, end, w, i)) && Stops(mem, a, end, w)
            && (EndsInside(mem, end, w) <==> EndsInside(mem, end, v))
  {
    hide Span, SizeAt;
    var w := [a] + v;
    forall i | 0 <= i < |w| ensures Follows(mem, a, end, w, i) {
      if i > 0 {
        assert Follows(mem, next, end, v, i - 1);
      }
    }
    hide Follows;
    if v != [] {
      assert w[|w| - 1] == v[|v| - 1];
    }
  }

  lemma SpanPositive(size: nat)
    ensures Span(size) >= 512
  {
  }

  /** tar_parse: the addresses of the headers, in order, in `headers`. */
  method TarParse(headers: array<nat>, mem: string, address: u32, end: u32) returns (files: nat)
    requires headers.Length == 64 && address + 512 <= |mem| && end + 512 <= |mem|
    requires NoWrap(mem, address, end) && |Walk(mem, address, end)| <= 64
    modifies headers
    ensures headers[..|Walk(mem, address, end)|] == Walk(mem, address, end)
    ensures files == |Walk(mem, address, end)| - if Ends(mem, address, end) then 0 else 1
  {
    hide Walk, Ends, NoWrap, Octal;
    var a: u32 := address;
    files := 0;
    ghost var all := Walk(mem, address, end);
    while true
      invariant a + 512 <= |mem| && NoWrap(mem, a, end)
      invariant files <= |all| && all == headers[..files] + Walk(mem, a, end)
      invariant Ends(mem, address, end) == Ends(mem, a, end)
      decreases |mem| - a
    {
      WalkStep(mem, a, end, a + Span(SizeAt(mem, a)));
      if mem[a] == NUL {
        return;
      }
      var size := TarGetSize(mem[a + 124..a + 136]);
      assert mem[a + 124..a + 136][..11] == mem[a + 124..a + 135];
      ghost var before := headers[..files];
      headers[files] := a;
      assert headers[..files] == before && headers[..files + 1] == before + [a];
      a := a + (size / 512 + 1) * 512;
      if size % 512 != 0 {
        a := a + 512;
      }
      if a > end {
        return;
      }
      files := files + 1;
    }
  }

  lemma MemberParts(mem: string, a: nat, e: Entry)
    requires Good(e) && Holds(mem, a, Member(e))
    ensures a + 512 <= |mem| && Holds(mem, a, Header(e)) && Holds(mem, a + 512, e.data)
  {
    var pad := Zeros(Padding(|e.data|));
    assert Member(e) == Header(e) + (e.data + pad);
    hide Holds, Header, Good, Zeros;
    HoldsParts(mem, a, Header(e), e.data + pad);
    HoldsParts(mem, a + 512, e.data, pad);
    HoldsBound(mem, a, Header(e));
  }

  lemma HoldsBound(mem: string, a: nat, s: string)
    requires Holds(mem, a, s)
    ensures a + |s| <= |mem|
  {
  }

  lemma ParseNothing(mem: string, a: nat, end: nat)
    requires Holds(mem, a, Archive([])) && end < 0x1_0000_0000 && end + 512 <= |mem|
    ensures Walk(mem, a, end) == [] && Ends(mem, a, end) && NoWrap(mem, a, end)
  {
    assert mem[a] == Zeros(512)[0];
  }

  /** tar_parse undoes the writer: it finds every header, in order, and stops at the zero block. */
  lemma {:induction false} ParseUndoesWriter(mem: string, a: nat, end: nat, es: seq<Entry>)
    requires forall i :: 0 <= i < |es| ==> Good(es[i])
    requires Holds(mem, a, Archive(es)) && a + |Archive(es)| - 512 <= end < 0x1_0000_0000 && end + 512 <= |mem|
    ensures Walk(mem, a, end) == Addresses(a, es) && Ends(mem, a, end) && NoWrap(mem, a, end)
    decreases |es|
  {
    hide Walk, Ends, NoWrap, SizeAt, Span, Holds, Member, Header, Good;
    if es == [] {
      ParseNothing(mem, a, end);
    } else {
      var e := es[0];
      HoldsParts(mem, a, Member(e), Archive(es[1..]));
      MemberParts(mem, a, e);
      HeaderReads(mem, a, e);
      ParseUndoesWriter(mem, a + Span(|e.data|), end, es[1..]);
      WalkStep(mem, a, end, a + Span(|e.data|));
    }
  }

  /** Each recorded address is the address of its own header, with its payload 512 bytes on. */
  lemma {:induction false} MemberAt(mem: string, a: nat, es: seq<Entry>, i: nat)
    requires forall j :: 0 <= j < |es| ==> Good(es[j])
    requires Holds(mem, a, Archive(es)) && i < |es|
    ensures Holds(mem, Addresses(a, es)[i], Header(es[i])) && Holds(mem, Addresses(a, es)[i] + 512, es[i].data)
    decreases i
  {
    hide Span, Holds, Member, Header, Good;
    var e := es[0];
    HoldsParts(mem, a, Member(e), Archive(es[1..]));
    if i > 0 {
      MemberAt(mem, a + Span(|e.data|), es[1..], i - 1);
    } else {
      MemberParts(mem, a, e);
    }
  }
}
