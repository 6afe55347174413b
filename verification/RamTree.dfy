/**
 The directory tree of the RAM disk, kernel/filesystem/ramfs.c and fs_root.c.
 Nodes live in an arena and a directory holds the list of its children, in the
 order list_add appended them. Beside the tree stands a flat list of records,
 one for each node, with the node's full path: walking the tree segment by
 segment turns out to be a search for the first record with the whole path.
 */
module RamTree {
  import opened Machine

  /** fs_node_t: `inode` is the header index of a file; `children` is the list a directory keeps in its inode. */
  datatype FsNode = FsNode(name: string, dir: bool, inode: nat, children: seq<nat>)

  type Path = seq<string>

  /** A node by its full path. */
  datatype Rec = Rec(path: Path, dir: bool, inode: nat)

  /** The first record with path `s`; |flat| when there is none. */
  function First(flat: seq<Rec>, s: Path): (i: nat)
    ensures i <= |flat| && (i < |flat| ==> flat[i].path == s) && forall j :: 0 <= j < i ==> flat[j].path != s
  {
    if flat == [] then 0
    else
      var i := First(flat[..|flat| - 1], s);
      if i < |flat| - 1 || flat[|flat| - 1].path == s then i else |flat|
  }

  /** Appending never changes a search that succeeded. */
  lemma {:induction false} FirstAppend(flat: seq<Rec>, r: Rec, s: Path)
    ensures First(flat + [r], s) == if First(flat, s) < |flat| then First(flat, s) else if r.path == s then |flat| else |flat| + 1
  {
    assert (flat + [r])[..|flat|] == flat;
  }

  // ------------------------------------------------------------------ the tree

  predicate InArena(nodes: seq<FsNode>) {
    |nodes| > 0 && forall n, k :: 0 <= n < |nodes| && 0 <= k < |nodes[n].children| ==> nodes[n].children[k] < |nodes|
  }

  /** The position in `cs` of the first child called `name`; |cs| when there is none. */
  function FirstNamed(nodes: seq<FsNode>, cs: seq<nat>, name: string): (k: nat)
    requires forall k :: 0 <= k < |cs| ==> cs[k] < |nodes|
    ensures k <= |cs| && (k < |cs| ==> nodes[cs[k]].name == name) && forall j :: 0 <= j < k ==> nodes[cs[j]].name != name
  {
    if cs == [] || nodes[cs[0]].name == name then 0 else 1 + FirstNamed(nodes, cs[1..], name)
  }

  /** ramfs_finddir, reached through finddir_fs: only a directory has children to find. */
  function FindDir(nodes: seq<FsNode>, n: nat, name: string): Option<nat>
    requires InArena(nodes) && n < |nodes|
  {
    var cs := nodes[n].children;
    var k := FirstNamed(nodes, cs, name);
    if nodes[n].dir && k < |cs| then Some(cs[k]) else None
  }

  /** The walk of root_fs_finddir below the mount point. */
  function Walk(nodes: seq<FsNode>, s: Path): (r: Option<nat>)
    requires InArena(nodes)
    ensures r.Some? ==> r.value < |nodes|
    decreases |s|
  {
    if s == [] then Some(0)
    else
      var up := Walk(nodes, s[..|s| - 1]);
      if up.None? then None else FindDir(nodes, up.value, s[|s| - 1])
  }

  /** Node `c` of the tree hangs under the first node with its parent's path. */
  ghost predicate Hangs(nodes: seq<FsNode>, flat: seq<Rec>, c: nat)
    requires |nodes| == |flat| && 0 < c < |nodes|
  {
    && flat[c].path != [] && nodes[c].name == flat[c].path[|flat[c].path| - 1]
    && var p := First(flat, flat[c].path[..|flat[c].path| - 1]);
       p < c && c in nodes[p].children
  }

  /** Every child has its parent's path plus its own name; children are in order of creation; only directories have any. */
  ghost predicate Branches(nodes: seq<FsNode>, flat: seq<Rec>, n: nat)
    requires |nodes| == |flat| && n < |nodes|
  {
    var cs := nodes[n].children;
    && (forall k :: 0 <= k < |cs| ==> 0 < cs[k] < |nodes| && flat[cs[k]].path == flat[n].path + [nodes[cs[k]].name])
    && (forall j, k :: 0 <= j < k < |cs| ==> cs[j] < cs[k])
    && (!nodes[n].dir ==> cs == [])
  }

  /** The tree in `nodes` is the tree of the paths in `flat`. */
  ghost predicate TreeOf(nodes: seq<FsNode>, flat: seq<Rec>) {
    && InArena(nodes) && |nodes| == |flat| && flat[0].path == [] && nodes[0].dir
    && (forall n :: 0 <= n < |nodes| ==> nodes[n].dir == flat[n].dir && nodes[n].inode == flat[n].inode)
    && (forall n :: 0 <= n < |nodes| ==> Branches(nodes, flat, n))
    && (forall c :: 0 < c < |nodes| ==> Hangs(nodes, flat, c))
  }

  /** Walking the tree segment by segment is searching the flat list for the whole path. */
  lemma {:induction false} WalkIsFirst(nodes: seq<FsNode>, flat: seq<Rec>, s: Path)
    requires TreeOf(nodes, flat)
    ensures Walk(nodes, s) == if First(flat, s) < |flat| then Some(First(flat, s)) else None
    decreases |s|
  {
    if s == [] {
      assert First(flat, s) == 0;
    } else {
      var q, x := s[..|s| - 1], s[|s| - 1];
      WalkIsFirst(nodes, flat, q);
      var p, i := First(flat, q), First(flat, s);
      if i < |flat| {
        assert Hangs(nodes, flat, i);
      }
      if p < |flat| {
        assert Branches(nodes, flat, p);
        ChildIsFirst(nodes, flat, p, s);
      }
    }
  }

  lemma {:induction false} ChildIsFirst(nodes: seq<FsNode>, flat: seq<Rec>, p: nat, s: Path)
    requires TreeOf(nodes, flat) && s != [] && p == First(flat, s[..|s| - 1]) < |flat|
    ensures FindDir(nodes, p, s[|s| - 1]) == if First(flat, s) < |flat| then Some(First(flat, s)) else None
  {
    hide First, FirstNamed;
    var x, i, cs := s[|s| - 1], First(flat, s), nodes[p].children;
    var k := FirstNamed(nodes, cs, x);
    assert Branches(nodes, flat, p);
    assert s == s[..|s| - 1] + [x];
    if i < |flat| {
      assert Hangs(nodes, flat, i);
      var m :| 0 <= m < |cs| && cs[m] == i;
      assert k <= m;
    }
    if k < |cs| {
      assert flat[cs[k]].path == s;
    }
  }

  // ----------------------------------------------------------- growing the tree

  /** list_add of a new node under `p`. */
  function AddNode(nodes: seq<FsNode>, p: nat, node: FsNode): seq<FsNode>
    requires p < |nodes|
  {
    nodes[p := nodes[p].(children := nodes[p].children + [|nodes|])] + [node]
  }

  /** Record `r` is a new child of `p`, which is the first node with its own path. */
  ghost predicate NewChild(flat: seq<Rec>, p: nat, r: Rec, name: string) {
    p < |flat| && flat[p].dir && r.path == flat[p].path + [name] && p == First(flat, flat[p].path)
  }

  lemma {:induction false} AddBranches(nodes: seq<FsNode>, flat: seq<Rec>, p: nat, r: Rec, name: string, n: nat)
    requires TreeOf(nodes, flat) && NewChild(flat, p, r, name) && n <= |nodes|
    ensures Branches(AddNode(nodes, p, FsNode(name, r.dir, r.inode, [])), flat + [r], n)
  {
    if n < |nodes| {
      assert Branches(nodes, flat, n);
    }
  }

  lemma {:induction false} AddHangs(nodes: seq<FsNode>, flat: seq<Rec>, p: nat, r: Rec, name: string, c: nat)
    requires TreeOf(nodes, flat) && NewChild(flat, p, r, name) && 0 < c <= |nodes|
    ensures Hangs(AddNode(nodes, p, FsNode(name, r.dir, r.inode, [])), flat + [r], c)
  {
    hide First;
    var ns, fs := AddNode(nodes, p, FsNode(name, r.dir, r.inode, [])), flat + [r];
    assert c < |nodes| ==> Hangs(nodes, flat, c);
    var up := fs[c].path[..|fs[c].path| - 1];
    FirstAppend(flat, r, up);
    if c < |nodes| {
      assert Hangs(nodes, flat, c);
      var q := First(flat, up);
      assert nodes[q].children <= ns[q].children;
      var k :| 0 <= k < |nodes[q].children| && nodes[q].children[k] == c;
      assert ns[q].children[k] == c;
    } else {
      assert up == flat[p].path;
      assert ns[p].children[|nodes[p].children|] == c;
    }
  }

  /** Adding a node under the first node with its parent's path adds one record to the flat list. */
  lemma {:induction false} AddKeepsTree(nodes: seq<FsNode>, flat: seq<Rec>, p: nat, r: Rec, name: string)
    requires TreeOf(nodes, flat) && NewChild(flat, p, r, name)
    ensures TreeOf(AddNode(nodes, p, FsNode(name, r.dir, r.inode, [])), flat + [r])
  {
    var ns, fs := AddNode(nodes, p, FsNode(name, r.dir, r.inode, [])), flat + [r];
    forall n | 0 <= n < |ns| ensures Branches(ns, fs, n) {
      AddBranches(nodes, flat, p, r, name, n);
    }
    forall c | 0 < c < |ns| ensures Hangs(ns, fs, c) {
      AddHangs(nodes, flat, p, r, name, c);
    }
    hide Branches, Hangs, First;
    assert InArena(ns);
  }

  // --------------------------------------------------------------- the flat list

  predicate Has(flat: seq<Rec>, s: Path) { First(flat, s) < |flat| }

  /** What a lookup of path `s` finds. */
  function Lookup(flat: seq<Rec>, s: Path): Option<Rec> {
    if Has(flat, s) then Some(flat[First(flat, s)]) else None
  }

  /** _ramfs_create_path: directories for the prefixes of `segs` of length 1 to `k` that are missing. */
  function CreateDirs(flat: seq<Rec>, segs: Path, k: nat): (fs: seq<Rec>)
    requires k <= |segs|
    ensures flat <= fs
  {
    if k == 0 then flat
    else
      var fs := CreateDirs(flat, segs, k - 1);
      if Has(fs, segs[..k]) then fs else fs + [Rec(segs[..k], true, 0)]
  }

  /** A member of the archive, by the segments of its name. */
  datatype Item = Item(segs: Path, dir: bool)

  /** The list after the loop of ramfs has handled members 0 to |items| - 1. */
  function Build(items: seq<Item>): (fs: seq<Rec>)
    requires forall i :: 0 <= i < |items| ==> items[i].segs != []
    ensures fs != [] && fs[0] == Rec([], true, 0)
  {
    if items == [] then [Rec([], true, 0)]
    else
      var n := |items| - 1;
      var it := items[n];
      CreateDirs(Build(items[..n]), it.segs, |it.segs| - 1) + [Rec(it.segs, it.dir, if it.dir then 0 else n)]
  }

  /** A lookup that succeeds keeps its result when the list grows. */
  lemma {:induction false} LookupGrows(flat: seq<Rec>, fs: seq<Rec>, s: Path)
    requires flat <= fs && Has(flat, s)
    ensures Has(fs, s) && Lookup(fs, s) == Lookup(flat, s)
  {
    var i, j := First(flat, s), First(fs, s);
    assert fs[i] == flat[i];
    assert j <= i;
    assert j < |flat| && fs[j] == flat[j];
  }

  lemma HasAppend(flat: seq<Rec>, r: Rec, s: Path)
    ensures Has(flat + [r], s) <==> Has(flat, s) || r.path == s
  {
    FirstAppend(flat, r, s);
  }

  lemma {:induction false} CreateDirsHas(flat: seq<Rec>, segs: Path, k: nat, s: Path)
    requires k <= |segs|
    ensures Has(CreateDirs(flat, segs, k), s) <==> Has(flat, s) || (0 < |s| <= k && s <= segs)
  {
    hide Has, First;
    if k > 0 {
      CreateDirsHas(flat, segs, k - 1, s);
      var fs := CreateDirs(flat, segs, k - 1);
      HasAppend(fs, Rec(segs[..k], true, 0), s);
      assert |s| == k && s <= segs <==> s == segs[..k];
    }
  }

  /** `s` is the path of some member, or leads to it. */
  ghost predicate Within(items: seq<Item>, s: Path) {
    exists j :: 0 <= j < |items| && s <= items[j].segs
  }

  lemma WithinStep(items: seq<Item>, n: nat, s: Path)
    requires |items| == n + 1
    ensures Within(items, s) <==> s <= items[n].segs || Within(items[..n], s)
  {
    if Within(items, s) {
      var j :| 0 <= j < n + 1 && s <= items[j].segs;
      assert j < n ==> items[..n][j] == items[j];
    }
    if Within(items[..n], s) {
      var j :| 0 <= j < n && s <= items[..n][j].segs;
      assert items[..n][j] == items[j];
    }
  }

  /** A path resolves exactly when it is a prefix of some member's path. */
  lemma {:induction false} BuildHas(items: seq<Item>, s: Path)
    requires forall i :: 0 <= i < |items| ==> items[i].segs != []
    ensures Has(Build(items), s) <==> s == [] || Within(items, s)
    decreases |items|
  {
    hide Has, First, CreateDirs, Within, Build;
    if items == [] {
      BuildHasNone(s);
    } else {
      var n := |items| - 1;
      var it := items[n];
      var fs := Build(items[..n]);
      BuildStep(items, n);
      BuildHas(items[..n], s);
      InsertHas(fs, it.segs, it.dir, if it.dir then 0 else n, s);
      WithinStep(items, n, s);
    }
  }

  lemma BuildStep(items: seq<Item>, n: nat)
    requires (forall i :: 0 <= i < |items| ==> items[i].segs != []) && |items| == n + 1
    ensures var it := items[n];
            Build(items) == CreateDirs(Build(items[..n]), it.segs, |it.segs| - 1) + [Rec(it.segs, it.dir, if it.dir then 0 else n)]
  {
  }

  lemma BuildHasNone(s: Path)
    ensures Has(Build([]), s) <==> s == []
    ensures !Within([], s)
  {
    HasAppend([], Rec([], true, 0), s);
    assert [] + [Rec([], true, 0)] == Build([]);
  }

  lemma InsertHas(flat: seq<Rec>, segs: Path, dir: bool, inode: nat, s: Path)
    requires segs != []
    ensures Has(CreateDirs(flat, segs, |segs| - 1) + [Rec(segs, dir, inode)], s) <==> Has(flat, s) || (s != [] && s <= segs)
  {
    hide Has, First, CreateDirs;
    CreateDirsHas(flat, segs, |segs| - 1, s);
    HasAppend(CreateDirs(flat, segs, |segs| - 1), Rec(segs, dir, inode), s);
    assert s <= segs && |s| == |segs| ==> s == segs;
  }

  lemma {:induction false} CreateDirsFiles(flat: seq<Rec>, segs: Path, k: nat, i: nat)
    requires k <= |segs| && i < |CreateDirs(flat, segs, k)| && !CreateDirs(flat, segs, k)[i].dir
    ensures i < |flat|
  {
    if k > 0 && i < |CreateDirs(flat, segs, k - 1)| {
      CreateDirsFiles(flat, segs, k - 1, i);
    }
  }

  /** An earlier member has this member's path as its own or inside it. */
  ghost predicate Shadowed(items: seq<Item>, i: nat)
    requires i < |items|
  {
    Within(items[..i], items[i].segs)
  }

  lemma {:induction false} LookupOwn(items: seq<Item>, i: nat)
    requires (forall i :: 0 <= i < |items| ==> items[i].segs != []) && i < |items| && !items[i].dir
    requires !Has(Build(items[..i]), items[i].segs)
    ensures Has(Build(items[..i + 1]), items[i].segs)
    ensures Lookup(Build(items[..i + 1]), items[i].segs) == Some(Rec(items[i].segs, false, i))
  {
    var s, next := items[i].segs, items[..i + 1];
    assert next[..i] == items[..i] && next[i] == items[i];
    var dirs := CreateDirs(Build(items[..i]), s, |s| - 1);
    assert Build(next) == dirs + [Rec(s, false, i)];
    hide CreateDirs, Build;
    CreateDirsHas(Build(items[..i]), s, |s| - 1, s);
    FirstAppend(dirs, Rec(s, false, i), s);
  }

  /** Where the prefixes of `segs` resolve, they resolve to directories. */
  ghost predicate ClearWay(flat: seq<Rec>, segs: Path) {
    forall m :: 0 < m < |segs| && Has(flat, segs[..m]) ==> Lookup(flat, segs[..m]).value.dir
  }

  // ------------------------------------------ a directory made on the way

  /** Some directory on the way to `segs` is missing. */
  ghost predicate Missing(flat: seq<Rec>, segs: Path) {
    exists m :: 0 < m < |segs| && !Has(flat, segs[..m])
  }

  /** Every record's parent is there. */
  ghost predicate Closed(flat: seq<Rec>) {
    forall i :: 0 <= i < |flat| && flat[i].path != [] ==> Has(flat, flat[i].path[..|flat[i].path| - 1])
  }

  lemma TreeClosed(nodes: seq<FsNode>, flat: seq<Rec>)
    requires TreeOf(nodes, flat)
    ensures Closed(flat)
  {
    forall i | 0 <= i < |flat| && flat[i].path != [] ensures Has(flat, flat[i].path[..|flat[i].path| - 1]) {
      assert Hangs(nodes, flat, i);
    }
  }

  lemma {:induction false} ClosedDown(flat: seq<Rec>, s: Path, m: nat)
    requires Closed(flat) && Has(flat, s) && m <= |s|
    ensures Has(flat, s[..m])
    decreases |s|
  {
    hide First;
    if m < |s| {
      assert flat[First(flat, s)].path == s;
      assert Has(flat, s[..|s| - 1]);
      hide Closed, Has;
      ClosedDown(flat, s[..|s| - 1], m);
      assert s[..|s| - 1][..m] == s[..m];
    } else {
      assert s[..m] == s;
    }
  }

  /** Where a directory is missing, so is all below it. */
  lemma MissingBelow(flat: seq<Rec>, segs: Path, m: nat, k: nat)
    requires Closed(flat) && m <= k <= |segs| && !Has(flat, segs[..m])
    ensures !Has(flat, segs[..k])
  {
    hide Has, Closed;
    assert segs[..k][..m] == segs[..m];
    if Has(flat, segs[..k]) {
      ClosedDown(flat, segs[..k], m);
    }
  }

  lemma {:induction false} NoneMissing(flat: seq<Rec>, segs: Path, k: nat)
    requires k < |segs| && forall m :: 0 < m <= k ==> Has(flat, segs[..m])
    ensures CreateDirs(flat, segs, k) == flat
  {
    hide Has;
    if k > 0 {
      NoneMissing(flat, segs, k - 1);
    }
  }

  /**
   One turn of the loop of ramfs, as the code has it. Making a directory allocates, and the new block's header
   overwrites the NULL behind the array that path returned: _ramfs_create_path then takes the last segment for a
   directory too, and the node gets whatever string the overwritten word leads to as its name.
   */
  function RawInsert(flat: seq<Rec>, it: Item, i: nat, stray: string): (fs: seq<Rec>)
    requires it.segs != []
    ensures flat <= fs && fs != flat
  {
    var inode := if it.dir then 0 else i;
    var dirs := CreateDirs(flat, it.segs, |it.segs| - 1);
    if dirs == flat then flat + [Rec(it.segs, it.dir, inode)]
    else CreateDirs(flat, it.segs, |it.segs|) + [Rec(it.segs + [stray], it.dir, inode)]
  }

  /** The list after the loop of ramfs; `stray(i)` is the string that the overwritten word leads to for member i. */
  function RawBuild(items: seq<Item>, stray: nat -> string): (fs: seq<Rec>)
    requires forall i :: 0 <= i < |items| ==> items[i].segs != []
    ensures fs != [] && fs[0] == Rec([], true, 0)
  {
    if items == [] then [Rec([], true, 0)]
    else
      var n := |items| - 1;
      RawInsert(RawBuild(items[..n], stray), items[n], n, stray(n))
  }

  lemma RawBuildStep(items: seq<Item>, stray: nat -> string, n: nat)
    requires (forall i :: 0 <= i < |items| ==> items[i].segs != []) && |items| == n + 1
    ensures RawBuild(items, stray) == RawInsert(RawBuild(items[..n], stray), items[n], n, stray(n))
  {
  }

  lemma MissingIff(flat: seq<Rec>, segs: Path)
    requires segs != []
    ensures Missing(flat, segs) <==> CreateDirs(flat, segs, |segs| - 1) != flat
  {
    hide Has;
    if Missing(flat, segs) {
      var m :| 0 < m < |segs| && !Has(flat, segs[..m]);
      CreateDirsHas(flat, segs, |segs| - 1, segs[..m]);
    } else {
      NoneMissing(flat, segs, |segs| - 1);
    }
  }

  /** Every directory on the way to a member is the path of an earlier one, or leads to it. */
  ghost predicate Grounded(items: seq<Item>) {
    forall k :: 0 <= k < |items| ==> GroundedAt(items, k)
  }

  ghost predicate GroundedAt(items: seq<Item>, k: nat)
    requires k < |items|
  {
    forall m :: 0 < m < |items[k].segs| ==> Within(items[..k], items[k].segs[..m])
  }

  lemma MissingMember(items: seq<Item>, k: nat)
    requires (forall i :: 0 <= i < |items| ==> items[i].segs != []) && k < |items|
    ensures Missing(Build(items[..k]), items[k].segs) <==> !GroundedAt(items, k)
  {
    hide Has, Within, Build;
    var segs := items[k].segs;
    forall m | 0 < m < |segs| ensures Has(Build(items[..k]), segs[..m]) <==> Within(items[..k], segs[..m]) {
      BuildHas(items[..k], segs[..m]);
    }
  }

  /** What a turn does, seen from the intended list: the same exactly when no directory is missing. */
  lemma RawTurnIff(items: seq<Item>, k: nat, stray: string)
    requires (forall i :: 0 <= i < |items| ==> items[i].segs != []) && k < |items|
    ensures RawInsert(Build(items[..k]), items[k], k, stray) == Build(items[..k + 1]) <==> GroundedAt(items, k)
  {
    hide CreateDirs, Build, Missing, GroundedAt, RawInsert;
    var it, fs := items[k], Build(items[..k]);
    MissingMember(items, k);
    MissingIff(fs, it.segs);
    assert items[..k + 1][..k] == items[..k] && items[..k + 1][k] == it;
    BuildStep(items[..k + 1], k);
    RawInsertIff(fs, it, k, stray);
  }

  lemma RawInsertIff(fs: seq<Rec>, it: Item, k: nat, stray: string)
    requires it.segs != []
    ensures RawInsert(fs, it, k, stray) == CreateDirs(fs, it.segs, |it.segs| - 1) + [Rec(it.segs, it.dir, if it.dir then 0 else k)]
            <==> CreateDirs(fs, it.segs, |it.segs| - 1) == fs
  {
    hide CreateDirs;
    var a, b := RawInsert(fs, it, k, stray), CreateDirs(fs, it.segs, |it.segs| - 1) + [Rec(it.segs, it.dir, if it.dir then 0 else k)];
    if CreateDirs(fs, it.segs, |it.segs| - 1) != fs {
      assert a[|a| - 1].path != b[|b| - 1].path;
    }
  }

  /** The loop builds the intended list, member after member. */
  ghost predicate BuildsAsMeant(items: seq<Item>, stray: nat -> string)
    requires forall i :: 0 <= i < |items| ==> items[i].segs != []
  {
    forall k :: 0 <= k <= |items| ==> RawBuild(items[..k], stray) == Build(items[..k])
  }

  /** ramfs builds the tree of the members' paths exactly when no directory has to be made on the way to any of them. */
  lemma RawBuildIff(items: seq<Item>, stray: nat -> string)
    requires forall i :: 0 <= i < |items| ==> items[i].segs != []
    ensures BuildsAsMeant(items, stray) <==> Grounded(items)
  {
    hide GroundedAt, Build, RawBuild, RawInsert;
    if BuildsAsMeant(items, stray) {
      forall k | 0 <= k < |items| ensures GroundedAt(items, k) {
        assert RawBuild(items[..k], stray) == Build(items[..k]);
        assert RawBuild(items[..k + 1], stray) == Build(items[..k + 1]);
        RawPrefixStep(items, stray, k);
        RawTurnIff(items, k, stray(k));
      }
    }
    if Grounded(items) {
      forall k | 0 <= k <= |items| ensures RawBuild(items[..k], stray) == Build(items[..k]) {
        RawIsBuild(items, stray, k);
      }
    }
  }

  lemma RawPrefixStep(items: seq<Item>, stray: nat -> string, k: nat)
    requires (forall i :: 0 <= i < |items| ==> items[i].segs != []) && k < |items|
    ensures RawBuild(items[..k + 1], stray) == RawInsert(RawBuild(items[..k], stray), items[k], k, stray(k))
  {
    RawBuildStep(items[..k + 1], stray, k);
    assert items[..k + 1][..k] == items[..k] && items[..k + 1][k] == items[k];
  }

  lemma {:induction false} RawIsBuild(items: seq<Item>, stray: nat -> string, k: nat)
    requires (forall i :: 0 <= i < |items| ==> items[i].segs != []) && k <= |items| && Grounded(items)
    ensures RawBuild(items[..k], stray) == Build(items[..k])
  {
    hide GroundedAt, RawInsert;
    if k > 0 {
      hide Build, RawBuild;
      RawIsBuild(items, stray, k - 1);
      RawPrefixStep(items, stray, k - 1);
      RawTurnIff(items, k - 1, stray(k - 1));
    }
  }

  /** A regular member whose path is new is found under that path exactly when no directory was missing; else a directory is. */
  lemma RawLookupIff(flat: seq<Rec>, segs: Path, i: nat, stray: string)
    requires segs != [] && !Has(flat, segs)
    ensures var fs := RawInsert(flat, Item(segs, false), i, stray);
            Lookup(fs, segs) == Some(if Missing(flat, segs) then Rec(segs, true, 0) else Rec(segs, false, i))
  {
    hide Missing, CreateDirs, First;
    MissingIff(flat, segs);
    var dirs := CreateDirs(flat, segs, |segs| - 1);
    CreateDirsHas(flat, segs, |segs| - 1, segs);
    if dirs == flat {
      FirstAppend(flat, Rec(segs, false, i), segs);
    } else {
      var own := dirs + [Rec(segs, true, 0)];
      CreateOwn(flat, segs);
      FirstAppend(dirs, Rec(segs, true, 0), segs);
      FirstAppend(own, Rec(segs + [stray], false, i), segs);
    }
  }

  lemma CreateOwn(flat: seq<Rec>, segs: Path)
    requires segs != [] && !Has(CreateDirs(flat, segs, |segs| - 1), segs)
    ensures CreateDirs(flat, segs, |segs|) == CreateDirs(flat, segs, |segs| - 1) + [Rec(segs, true, 0)]
  {
    assert segs[..|segs|] == segs;
  }

  // -------------------------------------------- the whole loop, read off the members

  /**
   Path `s` resolves after the loop, read off the members alone: it is the root, a member's path or on the way to one, or
   the path under which a member whose way was not all there ended up.
   */
  ghost predicate RawHas(items: seq<Item>, stray: nat -> string, s: Path)
    decreases |items|, 1
  {
    || s == [] || Within(items, s)
    || exists j: nat :: j < |items| && s == items[j].segs + [stray(j)] && Ungrounded(items, stray, j)
  }

  /** Some directory on the way to member `j` does not resolve when its turn comes. */
  ghost predicate Ungrounded(items: seq<Item>, stray: nat -> string, j: nat)
    requires j < |items|
    decreases j, 2
  {
    exists m: nat :: 0 < m < |items[j].segs| && !RawHas(items[..j], stray, items[j].segs[..m])
  }

  /** Ungrounded looks at the members up to `j` only. */
  lemma UngroundedPrefix(items: seq<Item>, stray: nat -> string, n: nat, j: nat)
    requires j < n <= |items|
    ensures Ungrounded(items[..n], stray, j) <==> Ungrounded(items, stray, j)
  {
    hide RawHas;
    assert items[..n][..j] == items[..j] && items[..n][j] == items[j];
  }

  lemma RawHasStep(items: seq<Item>, stray: nat -> string, n: nat, s: Path)
    requires |items| == n + 1
    ensures RawHas(items, stray, s) <==>
            RawHas(items[..n], stray, s) || (s != [] && s <= items[n].segs)
            || (Ungrounded(items, stray, n) && s == items[n].segs + [stray(n)])
  {
    hide Within, Ungrounded;
    WithinStep(items, n, s);
    WithinRoot(items[..n]);
    forall j: nat | j < n ensures items[..n][j] == items[j] && (Ungrounded(items[..n], stray, j) <==> Ungrounded(items, stray, j)) {
      UngroundedPrefix(items, stray, n, j);
    }
    if RawHas(items, stray, s) && s != [] && !Within(items, s) {
      var j: nat :| j < |items| && s == items[j].segs + [stray(j)] && Ungrounded(items, stray, j);
      assert j < n ==> Ungrounded(items[..n], stray, j) && s == items[..n][j].segs + [stray(j)];
    }
    if RawHas(items[..n], stray, s) && s != [] && !Within(items[..n], s) {
      var j: nat :| j < n && s == items[..n][j].segs + [stray(j)] && Ungrounded(items[..n], stray, j);
      assert Ungrounded(items, stray, j);
    }
  }

  lemma WithinRoot(items: seq<Item>)
    ensures Within(items, []) <==> items != []
  {
    if items != [] {
      assert [] <= items[0].segs;
    }
  }

  lemma RawInsertHas(flat: seq<Rec>, it: Item, i: nat, w: string, s: Path)
    requires it.segs != []
    ensures Has(RawInsert(flat, it, i, w), s) <==>
            Has(flat, s) || (s != [] && s <= it.segs) || (Missing(flat, it.segs) && s == it.segs + [w])
  {
    hide Has, CreateDirs, First;
    MissingIff(flat, it.segs);
    var inode, n := if it.dir then 0 else i, |it.segs|;
    if Missing(flat, it.segs) {
      CreateDirsHas(flat, it.segs, n, s);
      HasAppend(CreateDirs(flat, it.segs, n), Rec(it.segs + [w], it.dir, inode), s);
    } else {
      HasAppend(flat, Rec(it.segs, it.dir, inode), s);
      if s != [] && s <= it.segs && s != it.segs {
        assert s == it.segs[..|s|];
      }
    }
  }

  /** A path resolves in the list that the loop builds exactly when the members say so. */
  lemma {:induction false} RawHasIff(items: seq<Item>, stray: nat -> string, s: Path)
    requires forall i :: 0 <= i < |items| ==> items[i].segs != []
    ensures Has(RawBuild(items, stray), s) <==> RawHas(items, stray, s)
    decreases |items|, |s| + 1
  {
    if items == [] {
      BuildHasNone(s);
      assert RawBuild(items, stray) == Build([]);
    } else {
      hide Has, RawBuild, RawInsert, RawHas, Missing, Ungrounded;
      var n := |items| - 1;
      RawHasIff(items[..n], stray, s);
      RawMissingIff(items, stray, n);
      RawBuildStep(items, stray, n);
      RawInsertHas(RawBuild(items[..n], stray), items[n], n, stray(n), s);
      RawHasStep(items, stray, n, s);
    }
  }

  lemma {:induction false} RawMissingIff(items: seq<Item>, stray: nat -> string, k: nat)
    requires (forall i :: 0 <= i < |items| ==> items[i].segs != []) && k < |items|
    ensures Missing(RawBuild(items[..k], stray), items[k].segs) <==> Ungrounded(items, stray, k)
    decreases k + 1, 0
  {
    hide Has, RawHas, RawBuild;
    var segs := items[k].segs;
    forall m: nat | 0 < m < |segs| ensures Has(RawBuild(items[..k], stray), segs[..m]) <==> RawHas(items[..k], stray, segs[..m]) {
      RawHasIff(items[..k], stray, segs[..m]);
    }
  }

  /** A file in the list is a regular member, under its own path or its stray one, and carries its index. */
  lemma {:induction false} RawFiles(items: seq<Item>, stray: nat -> string, i: nat)
    requires forall i :: 0 <= i < |items| ==> items[i].segs != []
    requires i < |RawBuild(items, stray)| && !RawBuild(items, stray)[i].dir
    ensures var r := RawBuild(items, stray)[i];
            && r.inode < |items| && !items[r.inode].dir
            && (r.path == items[r.inode].segs || r.path == items[r.inode].segs + [stray(r.inode)])
    decreases |items|
  {
    if items != [] {
      var n := |items| - 1;
      var it, fs := items[n], RawBuild(items[..n], stray);
      hide CreateDirs;
      if i < |fs| {
        RawFiles(items[..n], stray, i);
      } else if i < |RawBuild(items, stray)| - 1 {
        CreateDirsFiles(fs, it.segs, |it.segs|, i);
      }
    }
  }

  /** The path that member `j` ends up under: its own, or one segment further in when a directory was missing. */
  ghost function OwnPath(items: seq<Item>, stray: nat -> string, j: nat): Path
    requires j < |items|
  {
    if Ungrounded(items, stray, j) then items[j].segs + [stray(j)] else items[j].segs
  }

  /** Record `r` is the node of member `j`: a directory for a directory entry, else a file with the member's index. */
  ghost predicate IsMember(items: seq<Item>, stray: nat -> string, r: Rec, j: nat) {
    && j < |items| && r.path == OwnPath(items, stray, j)
    && r.dir == items[j].dir && r.inode == if items[j].dir then 0 else j
  }

  /** Record `r` is a directory made on the way to a member. */
  ghost predicate IsMade(items: seq<Item>, stray: nat -> string, r: Rec) {
    && r.dir && r.inode == 0 && r.path != []
    && exists j: nat :: j < |items| && Ungrounded(items, stray, j) && r.path <= items[j].segs
  }

  ghost predicate IsSome(items: seq<Item>, stray: nat -> string, r: Rec) {
    IsMade(items, stray, r) || exists j: nat :: IsMember(items, stray, r, j)
  }

  lemma SomePrefix(items: seq<Item>, stray: nat -> string, n: nat, r: Rec)
    requires n <= |items| && IsSome(items[..n], stray, r)
    ensures IsSome(items, stray, r)
  {
    hide Ungrounded;
    forall j: nat | j < n ensures items[..n][j] == items[j] && (Ungrounded(items[..n], stray, j) <==> Ungrounded(items, stray, j)) {
      UngroundedPrefix(items, stray, n, j);
    }
    if IsMade(items[..n], stray, r) {
      var j: nat :| j < n && Ungrounded(items[..n], stray, j) && r.path <= items[..n][j].segs;
      assert Ungrounded(items, stray, j);
    } else {
      var j: nat :| IsMember(items[..n], stray, r, j);
      assert IsMember(items, stray, r, j);
    }
  }

  lemma {:induction false} CreateDirsNew(flat: seq<Rec>, segs: Path, k: nat, i: nat)
    requires k <= |segs| && |flat| <= i < |CreateDirs(flat, segs, k)|
    ensures var r := CreateDirs(flat, segs, k)[i]; r.dir && r.inode == 0 && r.path != [] && r.path <= segs
  {
    if k > 0 && i < |CreateDirs(flat, segs, k - 1)| {
      CreateDirsNew(flat, segs, k - 1, i);
    }
  }

  /** Every node below the root is the node of a member, or a directory made on the way to one. */
  lemma {:induction false} RawRecords(items: seq<Item>, stray: nat -> string, c: nat)
    requires (forall i :: 0 <= i < |items| ==> items[i].segs != []) && 0 < c < |RawBuild(items, stray)|
    ensures IsSome(items, stray, RawBuild(items, stray)[c])
    decreases |items|
  {
    if items != [] {
      hide RawInsert, Ungrounded, IsSome;
      var n := |items| - 1;
      var fs := RawBuild(items[..n], stray);
      if c < |fs| {
        RawRecords(items[..n], stray, c);
        SomePrefix(items, stray, n, fs[c]);
      } else {
        RawMissingIff(items, stray, n);
        NewRecord(items, stray, n, fs, c);
      }
    }
  }

  /** What the turn for member `n` adds. */
  lemma NewRecord(items: seq<Item>, stray: nat -> string, n: nat, fs: seq<Rec>, c: nat)
    requires n < |items| && items[n].segs != [] && (Missing(fs, items[n].segs) <==> Ungrounded(items, stray, n))
    requires |fs| <= c < |RawInsert(fs, items[n], n, stray(n))|
    ensures IsSome(items, stray, RawInsert(fs, items[n], n, stray(n))[c])
  {
    hide CreateDirs, Ungrounded, IsSome, Missing;
    var it := items[n];
    var all := RawInsert(fs, it, n, stray(n));
    MissingIff(fs, it.segs);
    if c < |all| - 1 {
      CreateDirsNew(fs, it.segs, |it.segs|, c);
      MadeFor(items, stray, n, all[c]);
    } else {
      MemberHere(items, stray, n, all[c]);
    }
  }

  lemma MadeFor(items: seq<Item>, stray: nat -> string, j: nat, r: Rec)
    requires j < |items| && Ungrounded(items, stray, j) && r.dir && r.inode == 0 && r.path != [] && r.path <= items[j].segs
    ensures IsSome(items, stray, r)
  {
    hide Ungrounded;
  }

  lemma MemberHere(items: seq<Item>, stray: nat -> string, j: nat, r: Rec)
    requires IsMember(items, stray, r, j)
    ensures IsSome(items, stray, r)
  {
    hide IsMember;
  }

  /** Path `p` is where regular member `j` ended up, and nothing resolved there before. */
  ghost predicate FileAt(items: seq<Item>, stray: nat -> string, p: Path, j: nat) {
    j < |items| && !items[j].dir && p == OwnPath(items, stray, j) && !RawHas(items[..j], stray, p)
  }

  /** Directory entry `j` has path `p`, and nothing resolved there before. */
  ghost predicate DirAt(items: seq<Item>, stray: nat -> string, p: Path, j: nat) {
    j < |items| && items[j].dir && p == items[j].segs && !RawHas(items[..j], stray, p)
  }

  /** Where a directory entry comes first, no regular member does. */
  lemma DirNotFile(items: seq<Item>, stray: nat -> string, p: Path, j: nat, i: nat)
    requires DirAt(items, stray, p, j)
    ensures RawHas(items, stray, p) && !FileAt(items, stray, p, i)
  {
    hide Ungrounded;
    if i < j {
      OwnResolves(items, stray, i, j);
    } else if j < i < |items| {
      assert items[..i][j] == items[j];
      assert RawHas(items[..i], stray, p);
    }
  }

  /** Once its turn is over, the path a member ended up under resolves. */
  lemma OwnResolves(items: seq<Item>, stray: nat -> string, i: nat, n: nat)
    requires i < n <= |items|
    ensures RawHas(items[..n], stray, OwnPath(items, stray, i))
  {
    hide Ungrounded;
    assert items[..n][i] == items[i];
    UngroundedPrefix(items, stray, n, i);
  }

  /** Looking a path up gives a file exactly when it is where a regular member first ended up, and then that member's index. */
  lemma {:induction false} RawFileIff(items: seq<Item>, stray: nat -> string, p: Path, j: nat)
    requires forall i :: 0 <= i < |items| ==> items[i].segs != []
    ensures Lookup(RawBuild(items, stray), p) == Some(Rec(p, false, j)) <==> FileAt(items, stray, p, j)
  {
    hide RawHas, RawBuild, Ungrounded, First;
    if FileAt(items, stray, p, j) {
      FileFound(items, stray, p, j);
    }
    if Lookup(RawBuild(items, stray), p) == Some(Rec(p, false, j)) {
      FileWas(items, stray, p, j);
    }
  }

  lemma {:induction false} FileFound(items: seq<Item>, stray: nat -> string, p: Path, j: nat)
    requires (forall i :: 0 <= i < |items| ==> items[i].segs != []) && FileAt(items, stray, p, j)
    ensures Lookup(RawBuild(items, stray), p) == Some(Rec(p, false, j))
  {
    var fs, it := RawBuild(items[..j], stray), items[j];
    RawHasIff(items[..j], stray, p);
    RawMissingIff(items, stray, j);
    MissingIff(fs, it.segs);
    RawPrefixStep(items, stray, j);
    RawGrows(items, stray, j + 1);
    hide RawHas, RawBuild, Ungrounded, First, CreateDirs, Missing;
    var dirs := if CreateDirs(fs, it.segs, |it.segs| - 1) == fs then fs else CreateDirs(fs, it.segs, |it.segs|);
    CreateDirsHas(fs, it.segs, |it.segs|, p);
    assert !Has(dirs, p);
    FirstAppend(dirs, Rec(p, false, j), p);
    FoundThere(RawBuild(items[..j + 1], stray), RawBuild(items, stray), p);
  }

  lemma {:induction false} FileWas(items: seq<Item>, stray: nat -> string, p: Path, j: nat)
    requires forall i :: 0 <= i < |items| ==> items[i].segs != []
    requires Lookup(RawBuild(items, stray), p) == Some(Rec(p, false, j))
    ensures FileAt(items, stray, p, j)
  {
    hide RawHas, RawBuild, Ungrounded, First;
    var all := RawBuild(items, stray);
    var c := First(all, p);
    assert all[c] == Rec(p, false, j) && c > 0;
    RawRecords(items, stray, c);
    assert IsMember(items, stray, all[c], j);
    var fs := RawBuild(items[..j], stray);
    RawHasIff(items[..j], stray, p);
    RawGrows(items, stray, j);
    if Has(fs, p) {
      LookupGrows(fs, all, p);
      RawFiles(items[..j], stray, First(fs, p));
    }
  }

  lemma {:induction false} RawGrows(items: seq<Item>, stray: nat -> string, n: nat)
    requires (forall i :: 0 <= i < |items| ==> items[i].segs != []) && n <= |items|
    ensures RawBuild(items[..n], stray) <= RawBuild(items, stray)
    decreases |items|
  {
    hide RawInsert;
    if n < |items| {
      var m := |items| - 1;
      RawGrows(items[..m], stray, n);
      assert items[..m][..n] == items[..n];
    } else {
      assert items[..n] == items;
    }
  }

  /** Member `i` can be found: nothing resolved under its path before its turn, and its way was there. */
  ghost predicate Findable(items: seq<Item>, stray: nat -> string, i: nat)
    requires i < |items|
  {
    !RawHas(items[..i], stray, items[i].segs) && !Ungrounded(items, stray, i)
  }

  /** In every archive, looking a regular member up finds exactly it when it is findable, and never otherwise. */
  lemma {:induction false} RawFindsIff(items: seq<Item>, stray: nat -> string, i: nat)
    requires (forall i :: 0 <= i < |items| ==> items[i].segs != []) && i < |items| && !items[i].dir
    ensures Lookup(RawBuild(items, stray), items[i].segs) == Some(Rec(items[i].segs, false, i)) <==> Findable(items, stray, i)
  {
    var s, fs, all := items[i].segs, RawBuild(items[..i], stray), RawBuild(items, stray);
    RawHasIff(items[..i], stray, s);
    RawMissingIff(items, stray, i);
    RawGrows(items, stray, i);
    hide First, RawHas, Missing, RawBuild, RawInsert, Ungrounded;
    if Has(fs, s) {
      LookupGrows(fs, all, s);
      if !fs[First(fs, s)].dir {
        RawFiles(items[..i], stray, First(fs, s));
      }
    } else {
      RawLookupIff(fs, s, i, stray(i));
      RawPrefixStep(items, stray, i);
      RawGrows(items, stray, i + 1);
      hide Has;
      FoundThere(RawBuild(items[..i + 1], stray), all, s);
    }
  }

  lemma FoundThere(flat: seq<Rec>, fs: seq<Rec>, s: Path)
    requires flat <= fs && Lookup(flat, s).Some?
    ensures Lookup(fs, s) == Lookup(flat, s)
  {
    LookupGrows(flat, fs, s);
  }

  /** Where no directory is missing on the way to any member, that is so unless an earlier member has the path or lies under it. */
  lemma GroundedFindable(items: seq<Item>, stray: nat -> string, i: nat)
    requires (forall i :: 0 <= i < |items| ==> items[i].segs != []) && i < |items| && Grounded(items)
    ensures Findable(items, stray, i) <==> !Shadowed(items, i)
  {
    hide RawHas, Has, RawBuild, Build, Within, Missing, Ungrounded;
    RawMissingIff(items, stray, i);
    RawIsBuild(items, stray, i);
    MissingMember(items, i);
    RawHasIff(items[..i], stray, items[i].segs);
    BuildHas(items[..i], items[i].segs);
    assert GroundedAt(items, i);
  }

  /** No file is in the way of a member, in the list that the loop has built before it. */
  ghost predicate RawClear(items: seq<Item>, stray: nat -> string)
    requires forall i :: 0 <= i < |items| ==> items[i].segs != []
  {
    forall k :: 0 <= k < |items| ==> ClearWay(RawBuild(items[..k], stray), items[k].segs)
  }

  /** No regular member's path, nor its stray path, leads through it to a later member. */
  ghost predicate NoFileInside(items: seq<Item>, stray: nat -> string) {
    forall j: nat, k: nat :: j < k < |items| && !items[j].dir ==>
      !(items[j].segs < items[k].segs) && !(items[j].segs + [stray(j)] < items[k].segs)
  }

  lemma ClearSuffices(items: seq<Item>, stray: nat -> string)
    requires (forall i :: 0 <= i < |items| ==> items[i].segs != []) && NoFileInside(items, stray)
    ensures RawClear(items, stray)
  {
    hide RawBuild, First;
    forall k | 0 <= k < |items| ensures ClearWay(RawBuild(items[..k], stray), items[k].segs) {
      var fs, segs := RawBuild(items[..k], stray), items[k].segs;
      forall m | 0 < m < |segs| && Has(fs, segs[..m]) ensures Lookup(fs, segs[..m]).value.dir {
        var i := First(fs, segs[..m]);
        assert segs[..m] < segs;
        if !fs[i].dir {
          RawFiles(items[..k], stray, i);
        }
      }
    }
  }

  /** A missing directory hides that member alone: "c" is found beside "a/b", whose "a" has no entry. */
  lemma BesideStray(stray: nat -> string)
    ensures var items := [Item(["a", "b"], true), Item(["c"], false)];
            !Grounded(items) && Findable(items, stray, 1)
  {
    var items := [Item(["a", "b"], true), Item(["c"], false)];
    assert items[..0] == [] && items[..1] == [items[0]];
    assert !GroundedAt(items, 0) by {
      assert 0 < 1 < |items[0].segs| && !Within(items[..0], items[0].segs[..1]);
    }
    var c, ab := items[1].segs, items[0].segs;
    assert c[0][0] == 'c' && ab[0][0] == 'a';
    assert c[0] != ab[0];
    assert !(c <= ab) && |ab + [stray(0)]| == 3;
  }

  /** The archive whose only member is "a/b": the name leads to a directory, and the file lies inside it under a stray name. */
  lemma StrayExample(stray: nat -> string)
    ensures var items := [Item(["a", "b"], false)];
            && !Grounded(items)
            && Lookup(Build(items), ["a", "b"]) == Some(Rec(["a", "b"], false, 0))
            && Lookup(RawBuild(items, stray), ["a", "b"]) == Some(Rec(["a", "b"], true, 0))
  {
    var items := [Item(["a", "b"], false)];
    var segs := items[0].segs;
    assert items[..0] == [];
    BuildHasNone(segs);
    BuildHasNone(segs[..1]);
    MissingMember(items, 0);
    assert Missing(Build([]), segs) by {
      assert !Has(Build([]), segs[..1]);
    }
    RawLookupIff(Build([]), segs, 0, stray(0));
    RawBuildStep(items, stray, 0);
    hide RawInsert, Missing, Has, Within;
    LookupOwnExample(items);
  }

  lemma {:induction false} LookupOwnExample(items: seq<Item>)
    requires |items| == 1 && items[0].segs != [] && !items[0].dir
    ensures Lookup(Build(items), items[0].segs) == Some(Rec(items[0].segs, false, 0))
  {
    assert items[..0] == [] && items[..1] == items;
    BuildHasNone(items[0].segs);
    LookupOwn(items, 0);
  }

  // ---------------------------------------------------------- a directory's children

  /** The records below `n` of `flat` that lie directly under path `s`, in order. */
  function Kids(flat: seq<Rec>, s: Path, n: nat): seq<nat>
    requires n <= |flat|
  {
    if n == 0 then []
    else
      var r := flat[n - 1].path;
      Kids(flat, s, n - 1) + if r != [] && r[..|r| - 1] == s then [n - 1] else []
  }

  lemma {:induction false} KidsAre(flat: seq<Rec>, s: Path, n: nat)
    requires n <= |flat|
    ensures forall c :: c in Kids(flat, s, n) <==> 0 <= c < n && flat[c].path != [] && flat[c].path[..|flat[c].path| - 1] == s
    ensures Increasing(Kids(flat, s, n))
  {
    if n > 0 {
      KidsAre(flat, s, n - 1);
      var ks := Kids(flat, s, n - 1);
      forall k | 0 <= k < |ks| ensures ks[k] < n - 1 {
        assert ks[k] in ks;
      }
    }
  }

  ghost predicate Increasing(a: seq<nat>) {
    forall j, k :: 0 <= j < k < |a| ==> a[j] < a[k]
  }

  lemma ButLast(a: seq<nat>)
    requires Increasing(a) && a != []
    ensures Increasing(a[..|a| - 1]) && a[|a| - 1] in a && forall z: nat :: z in a ==> z <= a[|a| - 1]
    ensures forall z: nat :: z in a[..|a| - 1] <==> z in a && z != a[|a| - 1]
  {
    var b, x := a[..|a| - 1], a[|a| - 1];
    assert a == b + [x];
    forall z | z in b ensures z < x {
      var j :| 0 <= j < |b| && b[j] == z;
      assert a[j] == z;
    }
  }

  /** Increasing sequences with the same elements are equal. */
  lemma {:induction false} SameIncreasing(a: seq<nat>, b: seq<nat>)
    requires Increasing(a) && Increasing(b) && forall x: nat :: x in a <==> x in b
    ensures a == b
    decreases |a|
  {
    hide Increasing;
    assert (a != [] ==> a[0] in a) && (b != [] ==> b[0] in b);
    if a != [] && b != [] {
      ButLast(a);
      ButLast(b);
      assert a[|a| - 1] in b && b[|b| - 1] in a;
      assert a[|a| - 1] == b[|b| - 1];
      var a', b' := a[..|a| - 1], b[..|b| - 1];
      forall z: nat ensures z in a' <==> z in b' {
        assert z in a' <==> z in a && z != a[|a| - 1];
        assert z in b' <==> z in b && z != b[|b| - 1];
      }
      SameIncreasing(a', b');
      assert a == a[..|a| - 1] + [a[|a| - 1]] && b == b[..|b| - 1] + [b[|b| - 1]];
    }
  }

  /** The children of the first node with a path are the records directly under that path, in order of creation. */
  lemma {:induction false} ChildrenAreKids(nodes: seq<FsNode>, flat: seq<Rec>, p: nat)
    requires TreeOf(nodes, flat) && p < |flat| && p == First(flat, flat[p].path)
    ensures nodes[p].children == Kids(flat, flat[p].path, |flat|)
  {
    hide TreeOf, Branches, Hangs, Kids, First;
    ChildrenIncrease(nodes, flat, p);
    var cs, ks := nodes[p].children, Kids(flat, flat[p].path, |flat|);
    KidsAre(flat, flat[p].path, |flat|);
    forall c: nat ensures c in cs <==> c in ks {
      ChildIffKid(nodes, flat, p, c);
    }
    SameIncreasing(cs, ks);
  }

  lemma ChildrenIncrease(nodes: seq<FsNode>, flat: seq<Rec>, p: nat)
    requires TreeOf(nodes, flat) && p < |flat|
    ensures |nodes| == |flat| && Increasing(nodes[p].children)
  {
    assert Branches(nodes, flat, p);
  }

  lemma {:induction false} ChildIffKid(nodes: seq<FsNode>, flat: seq<Rec>, p: nat, c: nat)
    requires TreeOf(nodes, flat) && p < |flat| && p == First(flat, flat[p].path)
    ensures |nodes| == |flat|
    ensures c in nodes[p].children <==>
            c < |flat| && flat[c].path != [] && flat[c].path[..|flat[c].path| - 1] == flat[p].path
  {
    hide First;
    var s := flat[p].path;
    if c in nodes[p].children {
      assert Branches(nodes, flat, p);
      assert flat[c].path == s + [nodes[c].name];
      assert flat[c].path[..|flat[c].path| - 1] == s;
    }
    if c < |flat| && flat[c].path != [] && flat[c].path[..|flat[c].path| - 1] == s {
      assert Hangs(nodes, flat, c);
    }
  }
}
