/**
 Path splitting, kernel/filesystem/path.c: a copy of the name is cut in place
 at its slashes, and a second pass walks the pieces.
 */
module Path {
  import opened Machine

  /** What a C string can hold. */
  ghost predicate NoNul(s: string) {
    forall i :: 0 <= i < |s| ==> s[i] != NUL
  }

  ghost predicate SlashFree(segs: seq<string>) {
    forall i :: 0 <= i < |segs| ==> '/' !in segs[i]
  }

  /** The pieces of `s` between its slashes. */
  function Split(s: string): (segs: seq<string>)
    ensures |segs| > 0
  {
    var k := Cut(s);
    if k == |s| then [s] else [s[..k]] + Split(s[k + 1..])
  }

  /** The index of the first slash; |s| when there is none. */
  function Cut(s: string): (k: nat)
    ensures k <= |s| && '/' !in s[..k] && (k < |s| ==> s[k] == '/')
  {
    if s == "" || s[0] == '/' then 0
    else
      var k := 1 + Cut(s[1..]);
      assert s[..k] == [s[0]] + s[1..][..k - 1];
      k
  }

  function Join(segs: seq<string>): string
    requires |segs| > 0
  {
    if |segs| == 1 then segs[0] else segs[0] + "/" + Join(segs[1..])
  }

  function DropLeading(s: string): string {
    if s != "" && s[0] == '/' then s[1..] else s
  }

  function DropTrailing(s: string): string {
    if s != "" && s[|s| - 1] == '/' then s[..|s| - 1] else s
  }

  /** The segments of a name: one leading and one trailing slash do not count. */
  function Segments(s: string): (segs: seq<string>)
    ensures |segs| > 0
  {
    Split(DropTrailing(DropLeading(s)))
  }

  // ------------------------------------------------------------- round trips

  lemma CutAt(a: string, s: string)
    requires '/' !in a && (s == "" || s[0] == '/')
    ensures Cut(a + s) == |a|
  {
    if a == "" {
      assert a + s == s;
    } else {
      assert (a + s)[1..] == a[1..] + s;
      CutAt(a[1..], s);
    }
  }

  lemma {:induction false} SplitOfJoin(segs: seq<string>)
    requires |segs| > 0 && SlashFree(segs)
    ensures Split(Join(segs)) == segs
    decreases |segs|
  {
    if |segs| == 1 {
      CutAt(segs[0], "");
      assert segs[0] + "" == segs[0];
    } else {
      var rest := Join(segs[1..]);
      var s := segs[0] + ("/" + rest);
      assert Join(segs) == s;
      CutAt(segs[0], "/" + rest);
      assert s[..|segs[0]|] == segs[0] && s[|segs[0]| + 1..] == rest;
      SplitOfJoin(segs[1..]);
    }
  }

  lemma {:induction false} JoinOfSplit(s: string)
    ensures Join(Split(s)) == s && SlashFree(Split(s))
    decreases |s|
  {
    var k := Cut(s);
    if k == |s| {
      assert s[..k] == s;
    } else {
      JoinOfSplit(s[k + 1..]);
      assert s == s[..k] + "/" + s[k + 1..];
      assert Split(s)[1..] == Split(s[k + 1..]);
    }
  }

  /** path undoes joining: every list of slash-free segments is recovered from "/" + join + "/". */
  lemma SegmentsRoundTrip(segs: seq<string>)
    requires |segs| > 0 && SlashFree(segs)
    ensures Segments("/" + Join(segs) + "/") == segs
  {
    var j := Join(segs);
    hide Join, Split;
    DropEnds(j);
    DropEnds(j + "/");
    assert "/" + j + "/" == "/" + (j + "/");
    SplitOfJoin(segs);
  }

  lemma DropEnds(j: string)
    ensures DropLeading("/" + j) == j && DropTrailing(j + "/") == j
  {
  }

  lemma {:induction false} JoinEnds(segs: seq<string>)
    requires |segs| > 0 && SlashFree(segs) && segs[0] != "" && segs[|segs| - 1] != ""
    ensures var s := Join(segs); s != "" && s[0] != '/' && s[|s| - 1] != '/'
    decreases |segs|
  {
    assert segs[0][0] in segs[0];
    if |segs| > 1 {
      LastOfJoin(segs);
    } else {
      assert segs[0][|segs[0]| - 1] in segs[0];
    }
  }

  lemma {:induction false} LastOfJoin(segs: seq<string>)
    requires |segs| > 0 && SlashFree(segs) && segs[|segs| - 1] != ""
    ensures var s := Join(segs); s != "" && s[|s| - 1] != '/'
    decreases |segs|
  {
    if |segs| == 1 {
      assert segs[0][|segs[0]| - 1] in segs[0];
    } else {
      LastOfJoin(segs[1..]);
    }
  }

  /** One slash more or less at either end never matters between non-empty segments. */
  lemma EndSlashesIgnored(segs: seq<string>)
    requires |segs| > 0 && SlashFree(segs) && segs[0] != "" && segs[|segs| - 1] != ""
    ensures Segments(Join(segs)) == segs && Segments("/" + Join(segs)) == segs && Segments(Join(segs) + "/") == segs
  {
    var j := Join(segs);
    JoinEnds(segs);
    SplitOfJoin(segs);
    hide Join, Split;
    DropEnds(j);
    assert DropLeading(j) == j && DropTrailing(j) == j && DropLeading(j + "/") == j + "/";
  }

  /** A name and its segments determine each other, up to the two end slashes. */
  lemma SegmentsComplete(s: string)
    ensures Join(Segments(s)) == DropTrailing(DropLeading(s)) && SlashFree(Segments(s))
  {
    JoinOfSplit(DropTrailing(DropLeading(s)));
  }

  // ------------------------------------------------------------------- path

  function Slashes(s: string): nat {
    if s == "" then 0 else Slashes(s[..|s| - 1]) + if s[|s| - 1] == '/' then 1 else 0
  }

  lemma {:induction false} SlashesConcat(a: string, b: string)
    ensures Slashes(a + b) == Slashes(a) + Slashes(b)
    decreases |b|
  {
    if b == "" {
      assert a + b == a;
    } else {
      assert (a + b)[..|a + b| - 1] == a + b[..|b| - 1];
      SlashesConcat(a, b[..|b| - 1]);
    }
  }

  lemma {:induction false} SlashesNone(s: string)
    requires '/' !in s
    ensures Slashes(s) == 0
  {
    if s != "" {
      SlashesNone(s[..|s| - 1]);
    }
  }

  /** Pass one counts the segments that pass two walks. */
  lemma {:induction false} SplitCount(s: string)
    ensures |Split(s)| == Slashes(s) + 1
    decreases |s|
  {
    var k := Cut(s);
    if k == |s| {
      assert s[..k] == s;
      SlashesNone(s);
    } else {
      assert s == s[..k] + ("/" + s[k + 1..]);
      SlashesConcat(s[..k], "/" + s[k + 1..]);
      SlashesConcat("/", s[k + 1..]);
      SlashesNone(s[..k]);
      assert "/"[..0] == "" && Slashes("/") == 1;
      SplitCount(s[k + 1..]);
    }
  }

  /** The buffer holds `t` with its slashes cut to NUL, and a NUL after it. */
  ghost predicate IsCut(buf: seq<char>, t: string) {
    && |buf| > |t| && buf[|t|] == NUL
    && forall j :: 0 <= j < |t| ==> buf[j] == if t[j] == '/' then NUL else t[j]
  }

  /** The buffer holds `s` with the slashes before `i` cut to NUL. */
  ghost predicate CutTo(buf: seq<char>, s: string, i: nat) {
    && |buf| == |s| + 1 && buf[|s|] == NUL
    && (forall j :: i <= j < |s| ==> buf[j] == s[j])
    && (forall j :: 0 <= j < i && j < |s| ==> buf[j] == if s[j] == '/' then NUL else s[j])
  }

  lemma CutStart(buf: seq<char>, s: string)
    requires buf == s + [NUL]
    ensures CutTo(buf, s, 0) && Slashes(s[..0]) == 0
  {
    assert s[..0] == "";
  }

  lemma CutHere(buf: seq<char>, s: string, i: nat)
    requires CutTo(buf, s, i) && NoNul(s) && i <= |s|
    ensures |buf| == |s| + 1 && (buf[i] == NUL <==> i == |s|) && (i < |s| ==> buf[i] == s[i] && (buf[i + 1] == NUL <==> i + 1 == |s|))
  {
  }

  /** One turn of pass one: character `i` is cut if it is a slash. */
  lemma CutNext(buf: seq<char>, s: string, i: nat)
    requires CutTo(buf, s, i) && i < |s|
    ensures CutTo(if s[i] == '/' then buf[i := NUL] else buf, s, i + 1)
    ensures Slashes(s[..i + 1]) == Slashes(s[..i]) + if s[i] == '/' then 1 else 0
  {
    assert s[..i + 1][..i] == s[..i];
  }

  lemma CutDone(buf: seq<char>, s: string, t: string)
    requires CutTo(buf, s, |s|) && (t == s || (|t| == |s| - 1 && t == s[..|t|] && s[|t|] == '/'))
    ensures IsCut(buf, t)
  {
  }

  /** Pass one: cut the slashes of the copy to NUL, counting segments. */
  method CutPass(str: array<char>, ghost s: string) returns (segs: nat)
    requires str.Length == |s| + 1 && str[..] == s + [NUL] && NoNul(s)
    modifies str
    ensures segs == |Split(DropTrailing(s))| && IsCut(str[..], DropTrailing(s))
  {
    hide CutTo, Slashes, Split, IsCut, NoNul;
    var i := 0;
    segs := 1;
    CutStart(str[..], s);
    CutHere(str[..], s, i);
    while str[i] != NUL
      invariant 0 <= i <= |s| && CutTo(str[..], s, i) && (str[i] == NUL <==> i == |s|)
      invariant segs == 1 + Slashes(s[..i]) && (i == |s| ==> i == 0 || s[i - 1] != '/')
      decreases |s| - i
    {
      CutHere(str[..], s, i);
      CutNext(str[..], s, i);
      if str[i] == '/' {
        str[i] := NUL;
        if str[i + 1] == NUL {
          CutDone(str[..], s, DropTrailing(s));
          SplitCount(s[..i]);
          return;
        }
        segs := segs + 1;
      }
      i := i + 1;
      CutHere(str[..], s, i);
    }
    assert s[..i] == s && DropTrailing(s) == s;
    CutDone(str[..], s, s);
    SplitCount(s);
  }

  /** In a cut buffer, the C string at `i` is the first segment of the rest of the name. */
  lemma CutString(buf: seq<char>, t: string, i: nat, e: nat)
    requires IsCut(buf, t) && NoNul(t) && i <= e <= |t| && buf[e] == NUL
    requires forall j :: i <= j < e ==> buf[j] != NUL
    ensures Split(t[i..]) == [buf[i..e]] + if e == |t| then [] else Split(t[e + 1..])
  {
    hide Split, Cut;
    var u := t[i..];
    assert buf[i..e] == t[i..e] == u[..e - i];
    assert e < |t| ==> t[e] == '/' && u[e - i + 1..] == t[e + 1..];
    forall j | 0 <= j < e - i ensures u[j] != '/' {
      assert buf[i + j] != NUL;
    }
    SplitHead(u, e - i);
  }

  lemma SplitHead(u: string, k: nat)
    requires k <= |u| && '/' !in u[..k] && (k < |u| ==> u[k] == '/')
    ensures Split(u) == [u[..k]] + if k == |u| then [] else Split(u[k + 1..])
  {
    hide Cut;
    assert u == u[..k] + u[k..];
    CutAt(u[..k], u[k..]);
    assert k == |u| ==> u[..k] == u;
  }

  /** Pass two: walk the pieces of the cut copy. */
  method WalkPass(str: array<char>, ghost t: string, segs: nat) returns (out: seq<string>)
    requires IsCut(str[..], t) && NoNul(t) && segs == |Split(t)|
    ensures out == Split(t)
  {
    hide Split;
    var seg, i := 0, 0;
    out := [];
    assert t[0..] == t && [] + Split(t) == Split(t);
    while seg < segs
      invariant 0 <= seg <= segs && |out| == seg
      invariant seg < segs ==> i <= |t| && Split(t) == out + Split(t[i..])
      invariant seg == segs ==> out == Split(t)
    {
      var start := i;
      while str[i] != NUL
        invariant start <= i <= |t| && forall j :: start <= j < i ==> str[j] != NUL
        decreases |t| - i
      {
        i := i + 1;
      }
      CutString(str[..], t, start, i);
      ghost var prefix := out;
      out := out + [str[start..i]];
      assert str[..][start..i] == str[start..i];
      assert i < |t| ==> prefix + ([str[start..i]] + Split(t[i + 1..])) == out + Split(t[i + 1..]);
      i := i + 1;
      seg := seg + 1;
    }
  }

  /** A word of the array that path returns: the address of a segment, NULL, or something that is neither. */
  datatype Cell = Seg(name: string) | Null | Stray

  /** One word for each segment. */
  function Slots(segs: seq<string>): (cs: seq<Cell>)
    ensures |cs| == |segs| && forall i :: 0 <= i < |segs| ==> cs[i] == Seg(segs[i])
  {
    if segs == [] then [] else [Seg(segs[0])] + Slots(segs[1..])
  }

  /** The array as path leaves it: its slots, and NULL in the word behind the block. */
  function Cells(segs: seq<string>): seq<Cell> { Slots(segs) + [Null] }

  /** The same words once malloc has put the next block there: a magic number, then a hole flag of zero. */
  function Overrun(segs: seq<string>): seq<Cell> { Slots(segs) + [Stray, Null] }

  /**
   path: the segments of a name and the NULL behind them, None for a NULL name. The block allocated for the
   array has `slots` words, so the NULL lies just past its end.
   */
  method PathOf(file: Option<string>) returns (p: Option<seq<Cell>>, slots: nat)
    requires file.Some? ==> NoNul(file.value)
    ensures file.None? ==> p.None?
    ensures file.Some? ==> slots == |Segments(file.value)| && p == Some(Cells(Segments(file.value)))
  {
    if file.None? {
      return None, 0;
    }
    var name := file.value;
    var i0 := if name != "" && name[0] == '/' then 1 else 0;
    ghost var s := DropLeading(name);
    assert s == name[i0..];
    var str := new char[|name| - i0 + 1](j requires 0 <= j <= |name| - i0 => if j < |name| - i0 then name[i0 + j] else NUL);
    assert str[..] == s + [NUL];
    var segs := CutPass(str, s);
    var out := WalkPass(str, DropTrailing(s), segs);
    return Some(Cells(out)), segs;
  }
}
