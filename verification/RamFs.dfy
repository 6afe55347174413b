/**
 The RAM disk itself: mounting an archive (ramfs), lookup from the root
 (root_fs_finddir), reading (ramfs_read) and listing (readdir).
 */
module RamFs {
  import opened Machine
  import opened RamTree
  import opened List
  import Path
  import Tar

  /** The member whose header is at address `h`. */
  function ItemAt(mem: string, h: nat): (it: Item)
    requires h + 512 <= |mem|
    ensures it.segs != []
  {
    Item(Path.Segments(Tar.CString(mem, h)), mem[h + 156] == '5')
  }

  ghost predicate InMemory(mem: string, hs: seq<nat>) {
    forall i :: 0 <= i < |hs| ==> hs[i] + 512 <= |mem|
  }

  ghost function Items(mem: string, hs: seq<nat>): (items: seq<Item>)
    requires InMemory(mem, hs)
    ensures |items| == |hs| && forall i :: 0 <= i < |hs| ==> items[i] == ItemAt(mem, hs[i])
  {
    seq(|hs|, i requires 0 <= i < |hs| => ItemAt(mem, hs[i]))
  }

  lemma {:induction false} CStringNoNul(mem: string, a: nat)
    ensures Path.NoNul(Tar.CString(mem, a))
    decreases |mem| - a
  {
    if a < |mem| && mem[a] != NUL {
      CStringNoNul(mem, a + 1);
    }
  }

  /** The node of a file system registered at the root: the RAM disk's, or one this model does not look into. */
  datatype Mount = Mount(name: string, ram: bool, dir: bool, addr: nat)

  /** What root_fs_finddir returns: NULL, the root itself, a node of the RAM disk, or whatever another mount makes of it. */
  datatype Found = Nothing | Root | Node(id: nat) | Elsewhere(mount: Mount)

  function FirstMount(mounts: seq<Mount>, name: string): (k: nat)
    ensures k <= |mounts| && (k < |mounts| ==> mounts[k].name == name) && forall j :: 0 <= j < k ==> mounts[j].name != name
  {
    if mounts == [] || mounts[0].name == name then 0 else 1 + FirstMount(mounts[1..], name)
  }

  /** Where a name leads: the first mount called like its first segment, and there the first record with the rest as path. */
  function Resolve(mounts: seq<Mount>, flat: seq<Rec>, name: string): Found {
    if name == "/" then Root
    else
      var segs := Path.Segments(name);
      var k := FirstMount(mounts, segs[0]);
      if k == |mounts| then Nothing
      else if !mounts[k].ram then Elsewhere(mounts[k])
      else if Has(flat, segs[1..]) then Node(First(flat, segs[1..]))
      else Nothing
  }

  /** The node that ramfs makes for the disk and registers. */
  function RamNode(addr: nat): Mount { Mount("ram", true, true, addr) }

  /** A name leads to the RAM disk: the first mount called like it is the disk. */
  predicate LeadsToRam(mounts: seq<Mount>, name: string) {
    var k := FirstMount(mounts, name);
    k < |mounts| && mounts[k].ram
  }

  /** A file system registered last is reached by its name exactly when no earlier one has the name. */
  lemma {:induction false} RegisteredLast(mounts: seq<Mount>, m: Mount)
    ensures FirstMount(mounts + [m], m.name) == |mounts| <==> forall j :: 0 <= j < |mounts| ==> mounts[j].name != m.name
    ensures m.ram && (forall j :: 0 <= j < |mounts| ==> !mounts[j].ram) ==>
              (LeadsToRam(mounts + [m], m.name) <==> forall j :: 0 <= j < |mounts| ==> mounts[j].name != m.name)
  {
    hide FirstMount;
    var all := mounts + [m];
    var k := FirstMount(all, m.name);
    assert all[|mounts|] == m && k <= |mounts|;
    assert forall j :: 0 <= j < |mounts| ==> all[j] == mounts[j];
    if k < |mounts| {
      assert mounts[k].name == m.name;
    } else {
      forall j | 0 <= j < |mounts| ensures mounts[j].name != m.name {
        assert all[j].name != m.name;
      }
    }
  }

  /** The root of the file system: the list of registered nodes and its counter. */
  class RootFs {
    var list: List.Node?<Mount>
    var files: u32
    ghost var spine: seq<List.Node<Mount>>

    /** The counter is the length of the list. */
    ghost predicate Valid()
      reads this, spine
    {
      IsList(list, spine) && files == |spine|
    }

    ghost function Mounts(): seq<Mount>
      reads this
    {
      Data(spine)
    }

    constructor ()
      ensures Valid() && Mounts() == [] && spine == []
    {
      list, files, spine := null, 0, [];
    }

    /** fs_register. */
    method FsRegister(m: Mount)
      requires Valid() && files < 0xFFFF_FFFF
      modifies this, spine
      ensures Valid() && Mounts() == old(Mounts()) + [m]
      ensures forall x :: x in spine ==> x in old(spine) || fresh(x)
    {
      list, spine := ListAdd(list, m, spine);
      files := files + 1;
    }

    /** list_foreach over the registered nodes with _fs_find; None for NULL. */
    method FsFind(name: string) returns (r: Option<Mount>)
      requires Valid()
      ensures var k := FirstMount(Mounts(), name); r == if k < |Mounts()| then Some(Mounts()[k]) else None
    {
      hide FirstMount, FirstWhere;
      var f := (m: Mount) => m.name == name;
      FirstMountIs(Mounts(), name, f);
      var entry := ListForeach(list, f, spine);
      return if entry == null then None else Some(entry.data);
    }

    /** root_fs_readdir: below the counter list_get finds a node, whose data the code reads without a test. */
    method RootReaddir(index: nat) returns (d: Option<Dirent>)
      requires Valid()
      ensures d == MountEntry(Mounts(), index)
    {
      if index >= files {
        return None;
      }
      var entry := ListGet(list, index, spine);
      var m := entry.data;
      return Some(Dirent(m.name, m.addr, index, m.dir));
    }
  }

  lemma FirstMountIs(mounts: seq<Mount>, name: string, f: Mount -> bool)
    requires forall m :: f(m) <==> m.name == name
    ensures FirstWhere(mounts, f) == FirstMount(mounts, name)
  {
    var j, k := FirstWhere(mounts, f), FirstMount(mounts, name);
    assert j < |mounts| ==> f(mounts[j]);
    assert k < |mounts| ==> f(mounts[k]);
  }

  /** A directory entry, with the cursor that readdir carries in `offset`. */
  datatype Dirent = Dirent(name: string, inode: nat, offset: nat, dir: bool)

  /** Entry `k` of the directory with path `s`: the k-th record directly under it. */
  ghost function Entry(flat: seq<Rec>, s: RamTree.Path, k: nat): Option<Dirent> {
    var ks := Kids(flat, s, |flat|);
    if k >= |ks| || ks[k] >= |flat| || flat[ks[k]].path == [] then None
    else var r := flat[ks[k]]; Some(Dirent(r.path[|r.path| - 1], r.inode, k, r.dir))
  }

  /** Entry `d` tells of record `c`, which lies directly under path `s`: its name, its inode and whether it is a directory. */
  ghost predicate TellsOf(flat: seq<Rec>, s: RamTree.Path, c: nat, d: Dirent) {
    c < |flat| && flat[c].path == s + [d.name] && d.inode == flat[c].inode && (d.dir <==> flat[c].dir)
  }

  lemma EntryTells(flat: seq<Rec>, s: RamTree.Path, k: nat)
    ensures Entry(flat, s, k).Some? <==> k < |Kids(flat, s, |flat|)|
    ensures Entry(flat, s, k).Some? ==>
              TellsOf(flat, s, Kids(flat, s, |flat|)[k], Entry(flat, s, k).value) && Entry(flat, s, k).value.offset == k
  {
    hide Kids;
    var ks := Kids(flat, s, |flat|);
    KidsAre(flat, s, |flat|);
    if k < |ks| {
      assert ks[k] in ks;
    }
  }

  /** The entries `ds` tell, in order, of all records directly under path `s`. */
  ghost predicate Lists(flat: seq<Rec>, s: RamTree.Path, ds: seq<Dirent>) {
    |ds| == |Kids(flat, s, |flat|)| && forall k :: 0 <= k < |ds| ==> TellsOf(flat, s, Kids(flat, s, |flat|)[k], ds[k])
  }

  /** No entry before `k` has its name. */
  predicate FirstOfName(ds: seq<Dirent>, k: nat)
    requires k < |ds|
  {
    forall j :: 0 <= j < k ==> ds[j].name != ds[k].name
  }

  /** The first entry of a name tells what looking the path and the name up gives. */
  lemma ListedLookup(flat: seq<Rec>, s: RamTree.Path, ds: seq<Dirent>, k: nat)
    requires Lists(flat, s, ds) && k < |ds| && FirstOfName(ds, k)
    ensures Lookup(flat, s + [ds[k].name]) == Some(Rec(s + [ds[k].name], ds[k].dir, ds[k].inode))
  {
    hide Kids, First;
    var ks, p := Kids(flat, s, |flat|), s + [ds[k].name];
    KidsAre(flat, s, |flat|);
    assert TellsOf(flat, s, ks[k], ds[k]);
    var c := First(flat, p);
    assert c <= ks[k];
    assert flat[c].path[..|flat[c].path| - 1] == s;
    assert c in ks;
    var j :| 0 <= j < |ks| && ks[j] == c;
    assert TellsOf(flat, s, ks[j], ds[j]);
    SameLast(s, ds[j].name, ds[k].name);
    assert j <= k;
  }

  lemma SameLast(s: RamTree.Path, x: string, y: string)
    ensures s + [x] == s + [y] ==> x == y
  {
    assert (s + [x])[|s|] == x && (s + [y])[|s|] == y;
  }

  /** The bytes ramfs_read copies for a file of `size` bytes, with the sum in uint32_t. */
  function ReadCount(size: u32, offset: u32, n: u32): u32 {
    if offset > size then 0 else if Add32(offset, n) > size then size - offset else n
  }

  /** Without wrap-around that is what is left of the file from the offset on, or the length asked for if that is less. */
  lemma ReadCountIs(size: u32, offset: u32, n: u32)
    requires offset + n < 0x1_0000_0000
    ensures offset >= size ==> ReadCount(size, offset, n) == 0
    ensures offset < size && n >= size - offset ==> ReadCount(size, offset, n) == size - offset
    ensures offset < size && n < size - offset ==> ReadCount(size, offset, n) == n
  {
  }

  /** With wrap-around the test lets every length through. */
  lemma ReadCountWraps(size: u32, offset: u32, n: u32)
    requires offset <= size && offset + n >= 0x1_0000_0000
    ensures ReadCount(size, offset, n) == n
  {
  }

  /** The copy stays within the file exactly when the sum of offset and length does not wrap. */
  lemma ReadStaysInFileIff(size: u32, offset: u32, n: u32)
    requires offset <= size
    ensures ReadCount(size, offset, n) <= size - offset <==> offset + n < 0x1_0000_0000
  {
  }

  /** The bytes asked for and the bytes copied are the same for every content exactly at offset 0, or when none is copied. */
  lemma ReadHonoursOffsetIff(size: u32, offset: u32, n: u32)
    requires offset <= size && offset + n < 0x1_0000_0000
    ensures (forall data: string :: |data| == size ==> Copied(data, offset, n) == Asked(data, offset, n)) <==>
            offset == 0 || ReadCount(size, offset, n) == 0
  {
    var c := ReadCount(size, offset, n);
    if offset > 0 && c > 0 {
      var data := seq(size, i => if i == offset then 'b' else 'a');
      assert Copied(data, offset, n)[0] == 'a' && Asked(data, offset, n)[0] == 'b';
    }
  }

  /** What ramfs_read copies from a file, and what a read at that offset asks for. */
  function Copied(data: string, offset: u32, n: u32): string
    requires offset <= |data| < 0x1_0000_0000 && offset + n < 0x1_0000_0000
  {
    data[..ReadCount(|data|, offset, n)]
  }

  function Asked(data: string, offset: u32, n: u32): string
    requires offset <= |data| < 0x1_0000_0000 && offset + n < 0x1_0000_0000
  {
    data[offset..offset + ReadCount(|data|, offset, n)]
  }

  /** fs_node_t: a directory keeps the list of its children, by node, where a file keeps its header index. */
  datatype FsRec = FsRec(name: string, dir: bool, inode: nat, list: List.Node?<nat>)

  /** The nodes with their lists read off. */
  ghost function NodesOf(rs: seq<FsRec>, spines: seq<seq<List.Node<nat>>>): (ns: seq<FsNode>)
    requires |rs| == |spines|
    ensures |ns| == |rs|
    ensures forall i :: 0 <= i < |rs| ==> ns[i] == FsNode(rs[i].name, rs[i].dir, rs[i].inode, Data(spines[i]))
  {
    seq(|rs|, i requires 0 <= i < |rs| => FsNode(rs[i].name, rs[i].dir, rs[i].inode, Data(spines[i])))
  }

  /** No list node is in two lists. */
  ghost predicate Apart(spines: seq<seq<List.Node<nat>>>) {
    forall i, j, x :: 0 <= i < j < |spines| && x in spines[i] ==> x !in spines[j]
  }

  ghost predicate Footed(spines: seq<seq<List.Node<nat>>>, cells: set<List.Node<nat>>) {
    forall i, x :: 0 <= i < |spines| && x in spines[i] ==> x in cells
  }

  /** A list that grows by a node nobody had, and a new empty list. */
  lemma ApartAdd(spines: seq<seq<List.Node<nat>>>, cells: set<List.Node<nat>>, parent: nat, e: List.Node<nat>)
    requires Apart(spines) && Footed(spines, cells) && parent < |spines| && e !in cells
    ensures Apart(spines[parent := spines[parent] + [e]] + [[]]) && Footed(spines[parent := spines[parent] + [e]] + [[]], cells + {e})
  {
    var ss := spines[parent := spines[parent] + [e]] + [[]];
    forall i, x | 0 <= i < |ss| && x in ss[i] ensures x == e || (i < |spines| && x in spines[i]) {
    }
    forall i, j, x | 0 <= i < j < |ss| && x in ss[i] ensures x !in ss[j] {
      if x == e {
        assert i == parent;
      }
    }
  }

  lemma ApartHere(spines: seq<seq<List.Node<nat>>>, i: nat, j: nat, x: List.Node<nat>)
    requires Apart(spines) && i < |spines| && j < |spines| && i != j && x in spines[i]
    ensures x !in spines[j]
  {
  }

  lemma FootedAll(spines: seq<seq<List.Node<nat>>>, cells: set<List.Node<nat>>, i: nat)
    requires Footed(spines, cells) && i < |spines|
    ensures forall x :: x in spines[i] ==> x in cells
  {
  }

  /** list_add to one of many lists that are apart: the others are as they were. */
  method Extend(l: List.Node?<nat>, id: nat, ghost rs: seq<FsRec>, ghost ss: seq<seq<List.Node<nat>>>, ghost parent: nat)
    returns (r: List.Node<nat>, ghost spine: seq<List.Node<nat>>)
    requires |rs| == |ss| && parent < |rs| && l == rs[parent].list && Apart(ss)
    requires forall i :: 0 <= i < |rs| ==> IsList(rs[i].list, ss[i])
    modifies ss[parent]
    ensures IsList(r, spine) && Data(spine) == Data(ss[parent]) + [id]
    ensures |spine| == |ss[parent]| + 1 && spine == ss[parent] + [spine[|ss[parent]|]] && fresh(spine[|ss[parent]|])
    ensures forall i :: 0 <= i < |rs| && i != parent ==> IsList(rs[i].list, ss[i])
  {
    hide Apart;
    r, spine := ListAdd(l, id, ss[parent]);
    forall i | 0 <= i < |rs| && i != parent ensures IsList(rs[i].list, ss[i]) {
      assert old(IsList(rs[i].list, ss[i]));
      forall x | x in ss[i] ensures x.next == old(x.next) {
        ApartHere(ss, i, parent, x);
      }
    }
  }

  lemma EmptyList()
    ensures IsList<nat>(null, [])
  {
  }

  lemma FootedHere(spines: seq<seq<List.Node<nat>>>, cells: set<List.Node<nat>>, i: nat, x: List.Node<nat>)
    requires Footed(spines, cells) && i < |spines| && x in spines[i]
    ensures x in cells
  {
  }

  lemma NodesAdd(rs: seq<FsRec>, ss: seq<seq<List.Node<nat>>>, parent: nat, l: List.Node?<nat>, spine: seq<List.Node<nat>>, r: FsRec)
    requires |rs| == |ss| && parent < |rs| && Data<nat>(spine) == Data<nat>(ss[parent]) + [|rs|]
    ensures NodesOf(rs[parent := rs[parent].(list := l)] + [r], ss[parent := spine] + [[]])
            == AddNode(NodesOf(rs, ss), parent, FsNode(r.name, r.dir, r.inode, []))
  {
    assert Data<nat>([]) == [];
    var rs', ss' := rs[parent := rs[parent].(list := l)] + [r], ss[parent := spine] + [[]];
    var ns, ms := NodesOf(rs', ss'), AddNode(NodesOf(rs, ss), parent, FsNode(r.name, r.dir, r.inode, []));
    forall i | 0 <= i < |ns| ensures ns[i] == ms[i] {
      if i < |rs| {
        assert ns[i] == FsNode(rs[i].name, rs[i].dir, rs[i].inode, Data<nat>(ss'[i]));
      }
    }
  }

  /** Searching a list of children by name, through the nodes. */
  lemma {:induction false} ForeachIsFirstNamed(nodes: seq<FsNode>, cs: seq<nat>, name: string, f: nat -> bool)
    requires forall k :: 0 <= k < |cs| ==> cs[k] < |nodes|
    requires forall c: nat :: f(c) <==> c < |nodes| && nodes[c].name == name
    ensures FirstWhere(cs, f) == FirstNamed(nodes, cs, name)
  {
    var j, k := FirstWhere(cs, f), FirstNamed(nodes, cs, name);
    assert j < |cs| ==> f(cs[j]);
    assert k < |cs| ==> f(cs[k]);
  }

  class RamDisk {
    const mem: string
    /** The string that MBLOCK_MAGIC, taken for an address, leads to while member i is added. */
    const stray: nat -> string
    const headers: array<nat>
    var files: nat
    var recs: seq<FsRec>
    /** The array that path returned last: `slots` words of its own and the words behind it. */
    var p: seq<Path.Cell>
    var slots: nat
    ghost var spines: seq<seq<List.Node<nat>>>
    ghost var cells: set<List.Node<nat>>
    ghost var flat: seq<Rec>

    constructor (mem: string, stray: nat -> string)
      ensures this.mem == mem && this.stray == stray && files == 0 && cells == {}
      ensures fresh(headers) && headers.Length == 64
    {
      this.mem, this.stray := mem, stray;
      files, recs, p, slots, spines, cells, flat := 0, [], [], 0, [], {}, [];
      headers := new nat[64];
    }

    /** Every directory's list is a list of its own. */
    ghost predicate ListsOk()
      reads this`recs, this`spines, this`cells, cells
    {
      && |spines| == |recs|
      && Footed(spines, cells)
      && (forall i :: 0 <= i < |recs| ==> IsList(recs[i].list, spines[i]))
      && Apart(spines)
    }

    ghost function Nodes(): seq<FsNode>
      requires |spines| == |recs|
      reads this`recs, this`spines
    {
      NodesOf(recs, spines)
    }

    ghost predicate Valid()
      reads this`recs, this`spines, this`cells, this`flat, cells
    {
      ListsOk() && |spines| == |recs| && TreeOf(Nodes(), flat)
    }

    /** malloc, as far as the array behind `p` is concerned: the new block's header lies right behind it. */
    method Malloc()
      requires slots <= |p|
      modifies this`p
      ensures p == old(p)[..slots] + [Path.Stray, Path.Null]
    {
      p := p[..slots] + [Path.Stray, Path.Null];
    }

    /** A new node, added to the list of `parent`. */
    method Adopt(parent: nat, name: string, dir: bool, inode: nat)
      requires ListsOk() && parent < |recs|
      modifies this`recs, this`spines, this`cells, cells
      ensures ListsOk() && |spines| == |recs| && Nodes() == AddNode(old(Nodes()), parent, FsNode(name, dir, inode, []))
      ensures fresh(cells - old(cells))
    {
      hide NodesOf, Apart, Footed, IsList, AddNode;
      ghost var rs, ss, cs := recs, spines, cells;
      var id: nat := |recs|;
      FootedAll(ss, cs, parent);
      var l, spine := Extend(recs[parent].list, id, rs, ss, parent);
      ghost var e := spine[|ss[parent]|];
      var r := FsRec(name, dir, inode, null);
      NodesAdd(rs, ss, parent, l, spine, r);
      ApartAdd(ss, cs, parent, e);
      EmptyList();
      recs := recs[parent := recs[parent].(list := l)] + [r];
      spines, cells := ss[parent := spine] + [[]], cs + {e};
    }

    /** list_foreach with _find_name. */
    method FindName(n: nat, name: string) returns (r: Option<nat>)
      requires ListsOk() && n < |recs| && InArena(Nodes())
      ensures var cs := Nodes()[n].children;
              var k := FirstNamed(Nodes(), cs, name);
              r == if k < |cs| then Some(cs[k]) else None
    {
      hide FirstNamed, FirstWhere;
      var rs := recs;
      var f := (c: nat) => c < |rs| && rs[c].name == name;
      ForeachIsFirstNamed(Nodes(), Data(spines[n]), name, f);
      var entry := ListForeach(recs[n].list, f, spines[n]);
      return if entry == null then None else Some(entry.data);
    }

    /** One turn of _ramfs_create_path: the child called `name`, made as a directory if missing. */
    method Enter(parent: nat, name: string, ghost q: RamTree.Path) returns (child: nat)
      requires Valid() && q != [] && q[|q| - 1] == name && slots <= |p|
      requires parent == First(flat, q[..|q| - 1]) < |flat| && flat[parent].dir
      modifies this`recs, this`spines, this`cells, this`flat, this`p, cells
      ensures Valid() && fresh(cells - old(cells))
      ensures flat == (if Has(old(flat), q) then old(flat) else old(flat) + [Rec(q, true, 0)])
      ensures child == First(flat, q) < |flat| && (!Has(old(flat), q) ==> flat[child].dir)
      ensures p == if Has(old(flat), q) then old(p) else old(p)[..slots] + [Path.Stray, Path.Null]
    {
      hide TreeOf, First, NodesOf, Apart;
      TreeFacts(Nodes(), flat, parent);
      ChildIsFirst(Nodes(), flat, parent, q);
      var found := FindName(parent, name);
      if found.Some? {
        return found.value;
      }
      assert q == q[..|q| - 1] + [name];
      AddKeepsTree(Nodes(), flat, parent, Rec(q, true, 0), name);
      FirstAppend(flat, Rec(q, true, 0), q);
      Malloc();
      Adopt(parent, name, true, 0);
      flat := flat + [Rec(q, true, 0)];
      return |recs| - 1;
    }

    /**
     _ramfs_create_path: it stops at the first NULL behind the next segment. That is the one path wrote, unless a
     directory was made on the way: then the last segment is taken for a directory too.
     */
    method CreatePath(ghost segs: RamTree.Path) returns (parent: nat)
      requires Valid() && segs != [] && slots == |segs| && ClearWay(flat, segs)
      requires p == Path.Cells(segs) || (p == Path.Overrun(segs) && Has(flat, segs) && Lookup(flat, segs).value.dir)
      modifies this`recs, this`spines, this`cells, this`flat, this`p, cells
      ensures Valid() && fresh(cells - old(cells))
      ensures Created(old(flat), flat, segs, old(p) == Path.Overrun(segs), p == Path.Overrun(segs), parent)
      ensures p == Path.Cells(segs) || p == Path.Overrun(segs)
    {
      hide TreeOf, First, ClearWay, NodesOf, ListsOk, Has, Created, Midway, Path.Cells, Path.Overrun;
      ghost var flat0, over0 := flat, p == Path.Overrun(segs);
      CellsDiffer(segs);
      TreeClosed(Nodes(), flat);
      RootFirst(Nodes(), flat);
      MidwayStart(flat, segs, over0);
      parent := 0;
      var s := 0;
      while p[s + 1] != Path.Null
        invariant 0 <= s <= |segs| && Valid() && fresh(cells - old(cells))
        invariant p == Path.Cells(segs) || p == Path.Overrun(segs)
        invariant p == Path.Cells(segs) ==> s < |segs|
        invariant Midway(flat0, flat, segs, s, over0, p == Path.Overrun(segs), parent)
        decreases |segs| - s
      {
        ghost var before, over, up := flat, p == Path.Overrun(segs), parent;
        MidwayTurn(flat0, flat, segs, s, over0, over, parent);
        parent := Enter(parent, p[s].name, segs[..s + 1]);
        MidwayNext(flat0, before, flat, segs, s, over0, over, up, parent);
        s := s + 1;
      }
      MidwayDone(flat0, flat, segs, s, over0, p == Path.Overrun(segs), parent);
    }

    /** The name of the new node: what the last word before NULL leads to. */
    method LastName(i: nat, ghost segs: RamTree.Path) returns (name: string)
      requires segs != [] && slots == |segs| && (p == Path.Cells(segs) || p == Path.Overrun(segs))
      modifies this`p
      ensures name == if old(p) == Path.Overrun(segs) then stray(i) else segs[|segs| - 1]
    {
      CellsDiffer(segs);
      var s := 0;
      while p[s] != Path.Null
        invariant 0 <= s <= |segs| + 1 && p == old(p) && (p == Path.Cells(segs) ==> s <= |segs|)
        decreases |segs| + 1 - s
      {
        s := s + 1;
      }
      Malloc();
      return if p[s - 1].Seg? then p[s - 1].name else stray(i);
    }

    /** The directory for a member: looked for once, and for a directory entry a second time. */
    method ParentFor(dir: bool, ghost segs: RamTree.Path) returns (parent: nat)
      requires Valid() && segs != [] && slots == |segs| && ClearWay(flat, segs) && p == Path.Cells(segs)
      modifies this`recs, this`spines, this`cells, this`flat, this`p, cells
      ensures Valid() && fresh(cells - old(cells))
      ensures Created(old(flat), flat, segs, false, p == Path.Overrun(segs), parent)
      ensures p == Path.Cells(segs) || p == Path.Overrun(segs)
    {
      hide TreeOf, First, ClearWay, CreateDirs, NodesOf, ListsOk, Has, Missing, Created, Path.Cells, Path.Overrun;
      ghost var flat0 := flat;
      CellsDiffer(segs);
      TreeClosed(Nodes(), flat);
      parent := CreatePath(segs);
      ghost var over := p == Path.Overrun(segs);
      CreatedFacts(flat0, flat, segs, over, parent);
      if dir {
        ghost var flat1, first := flat, parent;
        parent := CreatePath(segs);
        CreatedAgain(flat0, flat1, flat, segs, over, p == Path.Overrun(segs), first, parent);
      }
    }

    /** One turn of the loop of ramfs: the node for header `i`, under its directory. */
    method AddMember(i: nat, ghost items: seq<Item>)
      requires Valid() && i < headers.Length && headers[i] + 512 <= |mem| && i < |items|
      requires mem[headers[i] + 156] in {'0', NUL, '5'}
      requires items[i] == ItemAt(mem, headers[i]) && (forall k :: 0 <= k < |items| ==> items[k].segs != [])
      requires flat == RawBuild(items[..i], stray) && ClearWay(flat, items[i].segs)
      modifies this`recs, this`spines, this`cells, this`flat, this`p, this`slots, cells
      ensures Valid() && fresh(cells - old(cells)) && flat == RawBuild(items[..i + 1], stray)
    {
      hide TreeOf, First, ClearWay, RawBuild, RawInsert, NodesOf, ListsOk, Created, Path.Segments, Tar.CString, Path.Cells,
           Path.Overrun;
      var name := Tar.CString(mem, headers[i]);
      CStringNoNul(mem, headers[i]);
      ghost var segs, flat0 := items[i].segs, flat;
      var split, n := Path.PathOf(Some(name));
      p, slots := split.value, n;
      var dir := mem[headers[i] + 156] == '5';
      var parent := ParentFor(dir, segs);
      ghost var over := p == Path.Overrun(segs);
      CreatedParent(flat0, flat, segs, over, parent);
      TreeFacts(Nodes(), flat, parent);
      var nm := LastName(i, segs);
      ghost var r := Rec(flat[parent].path + [nm], dir, if dir then 0 else i);
      AddKeepsTree(Nodes(), flat, parent, r, nm);
      CreatedInserts(flat0, flat, items[i], over, parent, i, stray(i));
      RawPrefixStep(items, stray, i);
      Adopt(parent, nm, dir, if dir then 0 else i);
      flat := flat + [r];
    }

    /** ramfs: parse the archive at `address` and grow the tree of its members, as far as the array behind path allows. */
    method Ramfs(address: u32, end: u32)
      requires headers.Length == 64 && address + 512 <= |mem| && end + 512 <= |mem|
      requires Tar.NoWrap(mem, address, end) && |Tar.Walk(mem, address, end)| <= 64
      requires InMemory(mem, Tar.Walk(mem, address, end)) && Supported(mem, Tar.Walk(mem, address, end))
      requires Tar.Ends(mem, address, end) && RawClear(Items(mem, Tar.Walk(mem, address, end)), stray)
      modifies this`files, this`recs, this`spines, this`cells, this`flat, this`p, this`slots, cells, headers
      ensures Valid() && fresh(cells - old(cells))
      ensures files == |Tar.Walk(mem, address, end)| && headers[..files] == Tar.Walk(mem, address, end)
      ensures flat == RawBuild(Items(mem, Tar.Walk(mem, address, end)), stray)
    {
      hide Tar.Walk, Tar.Ends, Tar.NoWrap, RawBuild, ClearWay, TreeOf, ItemAt, NodesOf, Apart, Footed, First;
      ghost var hs := Tar.Walk(mem, address, end);
      ghost var items := Items(mem, hs);
      files := Tar.TarParse(headers, mem, address, end);
      recs, spines, cells, flat := [FsRec("ram", true, 0, null)], [[]], {}, [Rec([], true, 0)];
      EmptyLists(recs, spines, flat, stray);
      assert forall i :: 0 <= i < files ==> headers[i] == hs[i];
      AddMembers(items);
    }

    /** The loop of ramfs: one turn for each header. */
    method AddMembers(ghost items: seq<Item>)
      requires Valid() && flat == RawBuild([], stray) && files == |items| <= headers.Length
      requires forall i :: 0 <= i < files ==>
                 && headers[i] + 512 <= |mem| && mem[headers[i] + 156] in {'0', NUL, '5'} && items[i] == ItemAt(mem, headers[i])
      requires (forall i :: 0 <= i < |items| ==> items[i].segs != []) && RawClear(items, stray)
      modifies this`recs, this`spines, this`cells, this`flat, this`p, this`slots, cells
      ensures Valid() && fresh(cells - old(cells)) && flat == RawBuild(items, stray)
    {
      hide RawBuild, ClearWay, TreeOf, ItemAt, NodesOf, ListsOk;
      assert items[..0] == [];
      for i := 0 to files
        invariant Valid() && fresh(cells - old(cells)) && flat == RawBuild(items[..i], stray)
      {
        assert ClearWay(RawBuild(items[..i], stray), items[i].segs);
        AddMember(i, items);
      }
      assert items[..files] == items;
    }

    /** finddir_fs on a node of the RAM disk, that is, ramfs_finddir. */
    method FindDirFs(n: nat, name: string) returns (r: Option<nat>)
      requires ListsOk() && n < |recs| && InArena(Nodes())
      ensures r == FindDir(Nodes(), n, name)
    {
      hide FirstNamed, Apart;
      if !recs[n].dir {
        return None;
      }
      r := FindName(n, name);
    }

    /** root_fs_finddir on the root node: the mount by the first segment, then one finddir for each further segment. */
    method RootFindDir(root: RootFs, name: Option<string>) returns (r: Found)
      requires Valid() && root.Valid() && (name.Some? ==> Path.NoNul(name.value))
      ensures r == if name.None? then Nothing else Resolve(root.Mounts(), flat, name.value)
      ensures r.Node? ==> r.id < |flat| && flat[r.id].path == Path.Segments(name.value)[1..]
      ensures (name.None? ==> r == Nothing) && (name == Some("/") ==> r == Root)
      // a name is looked up in the first mount called like its first segment, if there is one
      ensures name.Some? && name.value != "/" ==>
                var mounts := root.Mounts();
                var k := FirstMount(mounts, Path.Segments(name.value)[0]);
                (k == |mounts| ==> r == Nothing) && (k < |mounts| && !mounts[k].ram ==> r == Elsewhere(mounts[k]))
      // under a name that leads to the disk, a node is found exactly when some record has the rest as its path
      ensures name.Some? && name.value != "/" && LeadsToRam(root.Mounts(), Path.Segments(name.value)[0]) ==>
                var s := Path.Segments(name.value)[1..];
                && (r.Node? <==> exists c :: 0 <= c < |flat| && flat[c].path == s)
                && (r.Node? ==> Lookup(flat, s) == Some(flat[r.id]))
    {
      hide TreeOf, NodesOf, FindDir, Path.Segments, FirstMount, First, ListsOk, IsList;
      if name.None? {
        return Nothing;
      }
      if name.value == "/" {
        return Root;
      }
      var split, n := Path.PathOf(name);
      var p := split.value;
      ghost var segs := Path.Segments(name.value);
      var mount := root.FsFind(p[0].name);
      if mount.None? {
        return Nothing;
      }
      if !mount.value.ram {
        return Elsewhere(mount.value);
      }
      r := Descend(p, segs);
      WalkIsFirst(Nodes(), flat, segs[1..]);
      HasIff(flat, segs[1..]);
    }

    /** The loop of root_fs_finddir below the mount: nothing allocates here, so the NULL behind the array is still there. */
    method Descend(p: seq<Path.Cell>, ghost segs: RamTree.Path) returns (r: Found)
      requires Valid() && segs != [] && p == Path.Cells(segs)
      ensures |spines| == |recs| && InArena(Nodes())
      ensures r == match Walk(Nodes(), segs[1..]) case None => Nothing case Some(n) => Node(n)
    {
      hide TreeOf, NodesOf, Apart, FindDir, ListsOk;
      TreeArena(Nodes(), flat);
      var n, i := 0, 1;
      ghost var s := segs[1..];
      assert s[..0] == [];
      while p[i] != Path.Null
        invariant 1 <= i <= |segs| && n < |recs| && Walk(Nodes(), s[..i - 1]) == Some(n)
        decreases |segs| - i
      {
        var step := FindDirFs(n, p[i].name);
        WalkNext(Nodes(), s, i - 1, n);
        if step.None? {
          WalkFails(Nodes(), s, i);
          return Nothing;
        }
        n := step.value;
        i := i + 1;
      }
      assert s[..i - 1] == s;
      return Node(n);
    }

    /** ramfs_read: it copies from the start of the file, whatever the offset. */
    method RamfsRead(node: nat, offset: u32, size: u32) returns (data: string)
      requires node < |recs| && recs[node].inode < headers.Length && headers[recs[node].inode] + 512 <= |mem|
      requires var h := headers[recs[node].inode]; h + 512 + ReadCount(Tar.SizeAt(mem, h), offset, size) <= |mem|
      ensures var h := headers[recs[node].inode];
              data == mem[h + 512..h + 512 + ReadCount(Tar.SizeAt(mem, h), offset, size)]
    {
      var h := headers[recs[node].inode];
      var fileSize := Tar.TarGetSize(mem[h + 124..h + 136]);
      assert mem[h + 124..h + 136][..11] == mem[h + 124..h + 135];
      if offset > fileSize {
        return "";
      }
      var n: int := size;
      if Add32(offset, size) > fileSize {
        n := fileSize - offset;
      }
      return mem[h + 512..h + 512 + n];
    }

    /** ramfs_readdir: the walk along the directory's list ends at the index-th record under its path; None for NULL. */
    method RamfsReaddir(n: nat, index: nat) returns (d: Option<Dirent>)
      requires Valid() && n < |flat| && n == First(flat, flat[n].path)
      ensures d == Entry(flat, flat[n].path, index)
      ensures d.Some? <==> index < |Kids(flat, flat[n].path, |flat|)|
      ensures d.Some? ==> TellsOf(flat, flat[n].path, Kids(flat, flat[n].path, |flat|)[index], d.value) && d.value.offset == index
    {
      hide TreeOf, NodesOf, Apart, First, Kids;
      TreeFacts(Nodes(), flat, n);
      ChildrenAreKids(Nodes(), flat, n);
      EntryTells(flat, flat[n].path, index);
      if !recs[n].dir {
        FileHasNone(Nodes(), flat, n);
        return None;
      }
      var entry := ListGet(recs[n].list, index, spines[n]);
      if entry == null {
        return None;
      }
      var c := entry.data;
      ChildFacts(Nodes(), flat, n, index);
      return Some(Dirent(recs[c].name, recs[c].inode, index, recs[c].dir));
    }

    /**
     readdir: the path is resolved on every call, and the entry after `dir` returned, the first one after NULL,
     with the cursor moved on. What another mount lists is not modelled.
     */
    method Readdir(root: RootFs, name: string, dir: Option<Dirent>) returns (at: Found, d: Option<Dirent>)
      requires Valid() && root.Valid() && Path.NoNul(name)
      ensures at == Resolve(root.Mounts(), flat, name) && (at.Nothing? ==> d.None?)
      ensures var k := if dir.None? then 0 else dir.value.offset;
              && (at.Node? ==> d == Moved(Entry(flat, Path.Segments(name)[1..], k)))
              && (at.Root? ==> d == Moved(MountEntry(root.Mounts(), k)))
    {
      hide TreeOf, NodesOf, ListsOk, First, Entry, Path.Segments, Path.NoNul, FirstMount, IsList;
      var offset := if dir.None? then 0 else dir.value.offset;
      at := RootFindDir(root, Some(name));
      match at {
        case Nothing => d := None;
        case Elsewhere(_) => d := None;
        case Root => d := root.RootReaddir(offset);
        case Node(n) => d := RamfsReaddir(n, offset);
      }
      if d.Some? {
        if at.Node? {
          EntryOffset(flat, flat[at.id].path, offset);
        }
        d := Some(d.value.(offset := offset + 1));
      }
    }

    /**
     Calling readdir from NULL until NULL lists every record directly under the path once, in order of creation;
     a name is listed exactly when the path and the name together resolve.
     */
    method ListDirectory(root: RootFs, name: string) returns (ds: seq<Dirent>)
      requires Valid() && root.Valid() && Path.NoNul(name) && Resolve(root.Mounts(), flat, name).Node?
      ensures var s := Path.Segments(name)[1..];
              && |ds| == |Kids(flat, s, |flat|)|
              && (forall k :: 0 <= k < |ds| ==> Some(ds[k]) == Moved(Entry(flat, s, k)))
              && (forall x :: Has(flat, s + [x]) <==> exists k :: 0 <= k < |ds| && ds[k].name == x)
      ensures Lists(flat, Path.Segments(name)[1..], ds)
      ensures forall k: nat :: k < |ds| && FirstOfName(ds, k) ==>
                var p := Path.Segments(name)[1..] + [ds[k].name]; Lookup(flat, p) == Some(Rec(p, ds[k].dir, ds[k].inode))
    {
      hide TreeOf, NodesOf, ListsOk, First, Entry, Path.Segments, Path.NoNul, FirstMount, Has, Kids, IsList, Lookup, FirstOfName;
      ghost var s := Path.Segments(name)[1..];
      ds := [];
      var at, d := Readdir(root, name, None);
      while d.Some?
        invariant d == Moved(Entry(flat, s, |ds|)) && |ds| <= |Kids(flat, s, |flat|)|
        invariant forall k :: 0 <= k < |ds| ==> Some(ds[k]) == Moved(Entry(flat, s, k))
        decreases |Kids(flat, s, |flat|)| - |ds|
      {
        EntryOffset(flat, s, |ds|);
        ds := ds + [d.value];
        at, d := Readdir(root, name, d);
      }
      EntryNone(flat, s, |ds|);
      forall x ensures Has(flat, s + [x]) <==> exists k :: 0 <= k < |ds| && ds[k].name == x {
        ListedIff(flat, s, ds, x);
      }
      forall k | 0 <= k < |ds| ensures TellsOf(flat, s, Kids(flat, s, |flat|)[k], ds[k]) {
        EntryTells(flat, s, k);
      }
      forall k: nat | k < |ds| && FirstOfName(ds, k)
        ensures var p := s + [ds[k].name]; Lookup(flat, p) == Some(Rec(p, ds[k].dir, ds[k].inode))
      {
        ListedLookup(flat, s, ds, k);
      }
    }

    /**
     The same on "/" lists every registered file system once, in the order of registration; a name leads somewhere
     from the root exactly when it is listed.
     */
    method ListRoot(root: RootFs) returns (ds: seq<Dirent>)
      requires Valid() && root.Valid()
      ensures |ds| == |root.Mounts()|
      ensures forall k :: 0 <= k < |ds| ==> ds[k].name == root.Mounts()[k].name && ds[k].dir == root.Mounts()[k].dir
      ensures forall k :: 0 <= k < |ds| ==> ds[k].inode == root.Mounts()[k].addr
      ensures forall x :: FirstMount(root.Mounts(), x) < |root.Mounts()| <==> exists k :: 0 <= k < |ds| && ds[k].name == x
    {
      hide TreeOf, NodesOf, ListsOk, First, Entry, Path.Segments, FirstMount, Has, Kids, IsList;
      ghost var mounts := root.Mounts();
      ds := [];
      var at, d := Readdir(root, "/", None);
      while d.Some?
        invariant d == Moved(MountEntry(mounts, |ds|)) && |ds| <= |mounts|
        invariant forall k :: 0 <= k < |ds| ==> ds[k].name == mounts[k].name && ds[k].dir == mounts[k].dir
        invariant forall k :: 0 <= k < |ds| ==> ds[k].inode == mounts[k].addr
        decreases |mounts| - |ds|
      {
        ds := ds + [d.value];
        at, d := Readdir(root, "/", d);
      }
      forall x ensures FirstMount(mounts, x) < |mounts| <==> exists k :: 0 <= k < |ds| && ds[k].name == x {
        var k := FirstMount(mounts, x);
        assert k < |mounts| ==> ds[k].name == x;
      }
    }

    /** The disk holds the archive of `es` at `address`, mounted. */
    ghost predicate Mounted(address: nat, es: seq<Tar.Entry>)
      reads this, cells, headers
    {
      && Valid() && (forall i :: 0 <= i < |es| ==> Tar.Good(es[i])) && Tar.Holds(mem, address, Tar.Archive(es))
      && files == |es| <= headers.Length && headers[..files] == Tar.Addresses(address, es)
      && flat == RawBuild(EntryItems(es), stray)
    }

    /**
     Mounting what the ustar writer wrote, and registering it as "ram": the tree is the one that the loop builds of the
     entries' own names, and "ram" leads to it exactly when nothing of that name was registered before.
     */
    method Mount(root: RootFs, address: u32, end: u32, addr: nat, ghost es: seq<Tar.Entry>)
      requires headers.Length == 64 && |es| <= 64 && end + 512 <= |mem|
      requires (forall i :: 0 <= i < |es| ==> Tar.Good(es[i]) && es[i].typeflag in {'0', NUL, '5'})
      requires Tar.Holds(mem, address, Tar.Archive(es)) && address + |Tar.Archive(es)| - 512 <= end
      requires RawClear(EntryItems(es), stray) && root.Valid() && root.files < 0xFFFF_FFFF
      modifies this`files, this`recs, this`spines, this`cells, this`flat, this`p, this`slots, cells, headers, root, root.spine
      ensures Mounted(address, es) && fresh(cells - old(cells)) && root.Valid()
      ensures root.Mounts() == old(root.Mounts()) + [RamNode(addr)]
      ensures (forall m :: m in old(root.Mounts()) ==> !m.ram) ==>
                (LeadsToRam(root.Mounts(), "ram") <==> forall m :: m in old(root.Mounts()) ==> m.name != "ram")
    {
      hide Tar.Walk, Tar.Ends, Tar.NoWrap, Tar.Addresses, Tar.Archive, Tar.Good, Tar.Holds, RawClear, RawBuild, TreeOf, ItemAt,
           NodesOf, ListsOk, LeadsToRam, IsList;
      Tar.HoldsBound(mem, address, Tar.Archive(es));
      Tar.ParseUndoesWriter(mem, address, end, es);
      HeadersAreEntries(mem, address, es);
      assert Items(mem, Tar.Addresses(address, es)) == EntryItems(es);
      Ramfs(address, end);
      RegisteredLast(root.Mounts(), RamNode(addr));
      root.FsRegister(RamNode(addr));
    }

    /**
     Lookup on a mounted disk, read off the entries: a name under the disk's leads to a node exactly when the rest of its
     segments resolves, to the disk's own root when there is no rest, to a file exactly where a regular entry ended up, and to
     a directory where a directory entry came first.
     */
    method FindMounted(root: RootFs, address: nat, ghost es: seq<Tar.Entry>, name: string) returns (r: Found)
      requires Mounted(address, es) && root.Valid() && Path.NoNul(name) && name != "/"
      requires LeadsToRam(root.Mounts(), Path.Segments(name)[0])
      ensures r.Node? <==> RawHas(EntryItems(es), stray, Path.Segments(name)[1..])
      ensures |Path.Segments(name)| == 1 ==> r == Node(0)
      ensures r.Node? ==> r.id < |recs| && (!recs[r.id].dir <==> FileAt(EntryItems(es), stray, Path.Segments(name)[1..], recs[r.id].inode))
      ensures forall j :: DirAt(EntryItems(es), stray, Path.Segments(name)[1..], j) ==> r.Node? && recs[r.id].dir
    {
      hide Tar.Good, Tar.Holds, Tar.Archive, Tar.Addresses, RawBuild, TreeOf, NodesOf, ListsOk, First, Path.Segments, IsList, RawHas,
           FileAt, DirAt, FirstMount;
      ghost var items, s := EntryItems(es), Path.Segments(name)[1..];
      r := RootFindDir(root, Some(name));
      RawHasIff(items, stray, s);
      HasIff(flat, s);
      RootFirst(Nodes(), flat);
      if r.Node? {
        TreeFacts(Nodes(), flat, r.id);
        KindIff(items, stray, s, flat[r.id]);
      }
      forall j | DirAt(items, stray, s, j) ensures r.Node? && recs[r.id].dir {
        DirNotFile(items, stray, s, j, if r.Node? then recs[r.id].inode else 0);
      }
    }

    /**
     Listing on a mounted disk, read off the entries: the first entry of a name is listed as a file exactly where a regular
     member ended up first, with that member's index, and else as a directory.
     */
    method ListMounted(root: RootFs, address: nat, ghost es: seq<Tar.Entry>, name: string) returns (ds: seq<Dirent>)
      requires Mounted(address, es) && root.Valid() && Path.NoNul(name) && name != "/"
      requires LeadsToRam(root.Mounts(), Path.Segments(name)[0]) && RawHas(EntryItems(es), stray, Path.Segments(name)[1..])
      ensures forall x :: RawHas(EntryItems(es), stray, Path.Segments(name)[1..] + [x]) <==> exists k :: 0 <= k < |ds| && ds[k].name == x
      ensures forall k: nat :: k < |ds| && FirstOfName(ds, k) ==>
                (!ds[k].dir <==> FileAt(EntryItems(es), stray, Path.Segments(name)[1..] + [ds[k].name], ds[k].inode))
    {
      hide Tar.Good, Tar.Holds, Tar.Archive, Tar.Addresses, RawBuild, TreeOf, NodesOf, ListsOk, First, Path.Segments, IsList, RawHas,
           FileAt, FirstMount, Lists, Kids, Entry, FirstOfName, Has, Lookup;
      ghost var items, s := EntryItems(es), Path.Segments(name)[1..];
      RawHasIff(items, stray, s);
      ds := ListDirectory(root, name);
      forall x ensures RawHas(items, stray, s + [x]) <==> Has(flat, s + [x]) {
        RawHasIff(items, stray, s + [x]);
      }
      forall k: nat | k < |ds| && FirstOfName(ds, k) ensures !ds[k].dir <==> FileAt(items, stray, s + [ds[k].name], ds[k].inode) {
        var p := s + [ds[k].name];
        KindIff(items, stray, p, Rec(p, ds[k].dir, ds[k].inode));
      }
    }

    /**
     End to end, for every mounted archive: from the root, "/ram/" and the name of regular entry `i` lead to the node with
     that entry's index exactly when the entry is findable, and reading at offset 0 then returns its payload.
     */
    method LookupRead(root: RootFs, address: nat, ghost es: seq<Tar.Entry>, i: nat, name: string, n: u32)
      returns (r: Found, found: bool, data: string)
      requires Mounted(address, es) && i < |es| && name == "/ram/" + es[i].name && root.Valid()
      requires es[i].name[0] != '/' && es[i].typeflag != '5' && LeadsToRam(root.Mounts(), "ram")
      ensures found <==> r.Node? && r.id < |recs| && !recs[r.id].dir && recs[r.id].inode == i
      ensures found <==> Findable(EntryItems(es), stray, i)
      ensures found ==> data == es[i].data[..if n < |es[i].data| then n as int else |es[i].data|]
    {
      hide Tar.Holds, Tar.Archive, Tar.Addresses, RawBuild, TreeOf, NodesOf, ListsOk, First, Findable, Path.Segments, Tar.Header, IsList,
           Grounded;
      ghost var items := EntryItems(es);
      assert Tar.Good(es[i]);
      RamNameNoNul(es[i].name);
      UnderRam(es[i].name);
      hide Tar.Good;
      ghost var segs := Path.Segments(es[i].name);
      RawFindsIff(items, stray, i);
      assert Path.Segments(name)[1..] == segs;
      r := RootFindDir(root, Some(name));
      if !r.Node? {
        return r, false, "";
      }
      TreeFacts(Nodes(), flat, r.id);
      if recs[r.id].dir || recs[r.id].inode != i {
        return r, false, "";
      }
      found := true;
      Tar.MemberAt(mem, address, es, i);
      ghost var h := Tar.Addresses(address, es)[i];
      assert headers[..files][i] == headers[i];
      Tar.HeaderReads(mem, h, es[i]);
      Tar.HoldsBound(mem, h + 512, es[i].data);
      data := RamfsRead(r.id, 0, n);
      PayloadPrefix(mem, h + 512, es[i].data, |data|);
    }
  }

  /** The entries by the segments of their names. */
  ghost function EntryItems(es: seq<Tar.Entry>): (items: seq<Item>)
    ensures |items| == |es|
    ensures forall i :: 0 <= i < |es| ==> items[i] == Item(Path.Segments(es[i].name), es[i].typeflag == '5') && items[i].segs != []
  {
    seq(|es|, i requires 0 <= i < |es| => Item(Path.Segments(es[i].name), es[i].typeflag == '5'))
  }

  lemma HeadersAreEntries(mem: string, a: nat, es: seq<Tar.Entry>)
    requires (forall i :: 0 <= i < |es| ==> Tar.Good(es[i]) && es[i].typeflag in {'0', NUL, '5'})
    requires Tar.Holds(mem, a, Tar.Archive(es))
    ensures InMemory(mem, Tar.Addresses(a, es)) && Supported(mem, Tar.Addresses(a, es))
    ensures forall i :: 0 <= i < |es| ==> ItemAt(mem, Tar.Addresses(a, es)[i]) == EntryItems(es)[i]
  {
    hide Tar.Addresses, Tar.Archive, Tar.Holds, Tar.Good, Tar.Header, ItemAt, EntryItems;
    var hs := Tar.Addresses(a, es);
    forall i | 0 <= i < |es|
      ensures hs[i] + 512 <= |mem| && mem[hs[i] + 156] in {'0', NUL, '5'} && ItemAt(mem, hs[i]) == EntryItems(es)[i]
    {
      Tar.MemberAt(mem, a, es, i);
      HeaderIsEntry(mem, hs[i], es[i]);
    }
  }

  lemma HeaderIsEntry(mem: string, h: nat, e: Tar.Entry)
    requires Tar.Good(e) && e.typeflag in {'0', NUL, '5'} && Tar.Holds(mem, h, Tar.Header(e))
    ensures h + 512 <= |mem| && mem[h + 156] in {'0', NUL, '5'}
    ensures ItemAt(mem, h) == Item(Path.Segments(e.name), e.typeflag == '5')
  {
    hide Tar.Holds, Tar.Good, Tar.Header, Path.Segments, Tar.CString;
    Tar.HoldsBound(mem, h, Tar.Header(e));
    Tar.HeaderReads(mem, h, e);
  }

  lemma TreeArena(nodes: seq<FsNode>, flat: seq<Rec>)
    requires TreeOf(nodes, flat)
    ensures InArena(nodes) && |nodes| == |flat|
  {
  }

  lemma PayloadPrefix(mem: string, a: nat, s: string, n: nat)
    requires Tar.Holds(mem, a, s) && n <= |s|
    ensures a + n <= |mem| && mem[a..a + n] == s[..n]
  {
    assert mem[a..a + n] == mem[a..a + |s|][..n];
  }

  lemma RamNameNoNul(nm: string)
    requires forall i :: 0 <= i < |nm| ==> nm[i] != NUL
    ensures Path.NoNul("/ram/" + nm)
  {
    assert Path.NoNul("/ram/");
  }

  /** Under "/ram/", a relative name has the mount's segment before its own. */
  lemma UnderRam(nm: string)
    requires nm != "" && nm[0] != '/'
    ensures Path.Segments("/ram/" + nm) == ["ram"] + Path.Segments(nm)
  {
    var s := Path.DropTrailing(nm);
    hide Path.Split;
    assert Path.DropLeading("/ram/" + nm) == "ram/" + nm;
    assert Path.DropTrailing("ram/" + nm) == "ram/" + s;
    var u := "ram/" + s;
    assert u[..3] == "ram" && u[3] == '/' && u[4..] == s;
    Path.SplitHead(u, 3);
  }

  /** With every directory entered before what it holds, and no name a prefix of another regular one's, every regular entry is findable. */
  lemma DistinctNamesSuffice(items: seq<Item>, stray: nat -> string, i: nat)
    requires (forall k :: 0 <= k < |items| ==> items[k].segs != []) && Grounded(items) && i < |items| && !items[i].dir
    requires forall j :: 0 <= j < |items| && j != i ==> !(items[i].segs <= items[j].segs)
    ensures Findable(items, stray, i)
  {
    hide Findable, Grounded;
    GroundedFindable(items, stray, i);
  }

  lemma {:induction false} WalkFails(nodes: seq<FsNode>, s: RamTree.Path, i: nat)
    requires InArena(nodes) && i <= |s| && Walk(nodes, s[..i]).None?
    ensures Walk(nodes, s).None?
    decreases |s|
  {
    if i < |s| {
      assert s[..|s| - 1][..i] == s[..i];
      WalkFails(nodes, s[..|s| - 1], i);
    } else {
      assert s[..i] == s;
    }
  }

  /** Every member is a regular file or a directory. */
  ghost predicate Supported(mem: string, hs: seq<nat>)
    requires InMemory(mem, hs)
  {
    forall i :: 0 <= i < |hs| ==> mem[hs[i] + 156] in {'0', NUL, '5'}
  }

  lemma EmptyTree(nodes: seq<FsNode>, flat: seq<Rec>)
    requires nodes == [FsNode("ram", true, 0, [])] && flat == [Rec([], true, 0)]
    ensures TreeOf(nodes, flat)
  {
  }

  lemma EmptyLists(rs: seq<FsRec>, spines: seq<seq<List.Node<nat>>>, flat: seq<Rec>, stray: nat -> string)
    requires rs == [FsRec("ram", true, 0, null)] && spines == [[]] && flat == [Rec([], true, 0)]
    ensures TreeOf(NodesOf(rs, spines), flat) && Apart(spines) && Footed(spines, {}) && flat == RawBuild([], stray)
  {
    assert Data<nat>([]) == [];
    EmptyTree(NodesOf(rs, spines), flat);
  }

  // ------------------------------------------------- _ramfs_create_path

  lemma CellsDiffer(segs: RamTree.Path)
    ensures |Path.Cells(segs)| == |segs| + 1 && |Path.Overrun(segs)| == |segs| + 2
    ensures forall i :: 0 <= i < |segs| ==> Path.Cells(segs)[i] == Path.Seg(segs[i]) && Path.Overrun(segs)[i] == Path.Seg(segs[i])
    ensures Path.Cells(segs)[|segs|] == Path.Null
    ensures Path.Overrun(segs)[|segs|] == Path.Stray && Path.Overrun(segs)[|segs| + 1] == Path.Null
    ensures Path.Cells(segs)[..|segs|] + [Path.Stray, Path.Null] == Path.Overrun(segs)
    ensures Path.Overrun(segs)[..|segs|] + [Path.Stray, Path.Null] == Path.Overrun(segs)
  {
  }

  /**
   What _ramfs_create_path did. `before` and `after` say whether the NULL behind the array was overwritten. It is
   left alone exactly when no directory was missing, and then the parent is the last segment's directory.
   */
  ghost predicate Created(flat0: seq<Rec>, flat: seq<Rec>, segs: RamTree.Path, before: bool, after: bool, parent: nat)
    requires segs != []
  {
    && (after <==> before || Missing(flat0, segs))
    && flat == (if after then CreateDirs(flat0, segs, |segs|) else flat0)
    && parent < |flat| && flat[parent].dir && parent == First(flat, if after then segs else segs[..|segs| - 1])
  }

  /** The next directory is missing from the list so far, or there as a directory. */
  lemma TurnDir(flat: seq<Rec>, segs: RamTree.Path, s: nat, before: bool)
    requires s < |segs| && ClearWay(flat, segs) && Closed(flat)
    requires s + 1 == |segs| ==> (before && Has(flat, segs) && Lookup(flat, segs).value.dir) || Missing(flat, segs)
    ensures var fs := CreateDirs(flat, segs, s);
            && (Has(fs, segs[..s + 1]) ==> fs[First(fs, segs[..s + 1])].dir)
            && CreateDirs(flat, segs, s + 1) == (if Has(fs, segs[..s + 1]) then fs else fs + [Rec(segs[..s + 1], true, 0)])
            && (s + 1 < |segs| && !Has(fs, segs[..s + 1]) ==> Missing(flat, segs))
  {
    hide First, Closed;
    var fs := CreateDirs(flat, segs, s);
    CreateDirsHas(flat, segs, s, segs[..s + 1]);
    if s + 1 < |segs| {
      NextDir(flat, segs, s);
    } else {
      assert segs[..s + 1] == segs;
      if Missing(flat, segs) {
        var m :| 0 < m < |segs| && !Has(flat, segs[..m]);
        MissingBelow(flat, segs, m, |segs|);
      } else {
        LookupGrows(flat, fs, segs);
      }
    }
  }

  /** Where the loop stands before turn `s`, with `over` saying whether the NULL behind the array is overwritten. */
  ghost predicate Midway(flat0: seq<Rec>, flat: seq<Rec>, segs: RamTree.Path, s: nat, before: bool, over: bool, parent: nat)
    requires s <= |segs|
  {
    && flat == CreateDirs(flat0, segs, s)
    && parent < |flat| && parent == First(flat, segs[..s]) && flat[parent].dir
    && (if over then before || Missing(flat0, segs) else !before && flat == flat0)
  }

  lemma MidwayStart(flat: seq<Rec>, segs: RamTree.Path, before: bool)
    requires |flat| > 0 && First(flat, []) == 0 && flat[0].dir
    ensures Midway(flat, flat, segs, 0, before, before, 0)
  {
    assert segs[..0] == [];
  }

  lemma MidwayTurn(flat0: seq<Rec>, flat: seq<Rec>, segs: RamTree.Path, s: nat, before: bool, over: bool, parent: nat)
    requires s < |segs| && Midway(flat0, flat, segs, s, before, over, parent)
    ensures segs[..s + 1][..s] == segs[..s]
    ensures parent == First(flat, segs[..s]) < |flat| && flat[parent].dir
  {
  }

  lemma MidwayNext(flat0: seq<Rec>, flat: seq<Rec>, flat': seq<Rec>, segs: RamTree.Path, s: nat, before: bool, over: bool,
                   parent: nat, child: nat)
    requires s < |segs| && Midway(flat0, flat, segs, s, before, over, parent) && (s + 1 == |segs| ==> over)
    requires ClearWay(flat0, segs) && Closed(flat0) && (before ==> Has(flat0, segs) && Lookup(flat0, segs).value.dir)
    requires flat' == if Has(flat, segs[..s + 1]) then flat else flat + [Rec(segs[..s + 1], true, 0)]
    requires child == First(flat', segs[..s + 1]) < |flat'| && (!Has(flat, segs[..s + 1]) ==> flat'[child].dir)
    ensures Midway(flat0, flat', segs, s + 1, before, over || !Has(flat, segs[..s + 1]), child)
  {
    hide First, Has, Missing, ClearWay, Closed;
    TurnDir(flat0, segs, s, before);
  }

  lemma MidwayDone(flat0: seq<Rec>, flat: seq<Rec>, segs: RamTree.Path, s: nat, before: bool, over: bool, parent: nat)
    requires segs != [] && s <= |segs| && Midway(flat0, flat, segs, s, before, over, parent)
    requires s == if over then |segs| else |segs| - 1
    ensures Created(flat0, flat, segs, before, over, parent)
  {
    hide First, Missing;
    MissingIff(flat0, segs);
    assert segs[..|segs|] == segs;
  }

  lemma CreatedFacts(flat0: seq<Rec>, flat: seq<Rec>, segs: RamTree.Path, after: bool, parent: nat)
    requires segs != [] && ClearWay(flat0, segs) && Closed(flat0) && Created(flat0, flat, segs, false, after, parent)
    ensures parent < |flat| && ClearWay(flat, segs) && (after ==> Has(flat, segs) && Lookup(flat, segs).value.dir)
  {
    hide First, CreateDirs;
    if after {
      forall m | 0 < m < |segs| && Has(flat, segs[..m]) ensures Lookup(flat, segs[..m]).value.dir {
        DirAfter(flat0, segs, m);
      }
    }
  }

  lemma DirAfter(flat0: seq<Rec>, segs: RamTree.Path, m: nat)
    requires 0 < m < |segs| && ClearWay(flat0, segs) && Has(CreateDirs(flat0, segs, |segs|), segs[..m])
    ensures Lookup(CreateDirs(flat0, segs, |segs|), segs[..m]).value.dir
  {
    hide CreateDirs;
    var fs := CreateDirs(flat0, segs, |segs|);
    var i := First(fs, segs[..m]);
    if !fs[i].dir {
      CreateDirsFiles(flat0, segs, |segs|, i);
      assert flat0[i] == fs[i];
      assert Has(flat0, segs[..m]);
      LookupGrows(flat0, fs, segs[..m]);
    }
  }

  lemma CreatedParent(flat0: seq<Rec>, flat: seq<Rec>, segs: RamTree.Path, after: bool, parent: nat)
    requires segs != [] && Created(flat0, flat, segs, false, after, parent)
    ensures parent < |flat| && flat[parent].dir && parent == First(flat, flat[parent].path)
  {
    hide First, CreateDirs, Missing;
  }

  /** The second call for a directory entry finds everything in place. */
  lemma CreatedAgain(flat0: seq<Rec>, flat1: seq<Rec>, flat: seq<Rec>, segs: RamTree.Path, before: bool, after: bool,
                     first: nat, parent: nat)
    requires segs != [] && Created(flat0, flat1, segs, false, before, first) && Created(flat1, flat, segs, before, after, parent)
    ensures flat == flat1 && after == before && parent < |flat|
    ensures Created(flat0, flat, segs, false, after, parent)
  {
    hide First;
    if before {
      CreateAgain(flat0, segs, |segs|, |segs|);
    }
  }

  lemma {:induction false} CreateAgain(flat: seq<Rec>, p: seq<string>, n: nat, k: nat)
    requires k <= n <= |p|
    ensures CreateDirs(CreateDirs(flat, p, n), p, k) == CreateDirs(flat, p, n)
    decreases k
  {
    hide First, Has;
    if k > 0 {
      CreateAgain(flat, p, n, k - 1);
      CreateDirsHas(flat, p, n, p[..k]);
    }
  }

  /** With the new node under the parent, the turn did what RawInsert does. */
  lemma CreatedInserts(flat0: seq<Rec>, flat: seq<Rec>, it: Item, over: bool, parent: nat, i: nat, stray: string)
    requires it.segs != [] && Created(flat0, flat, it.segs, false, over, parent)
    ensures flat + [Rec(flat[parent].path + [if over then stray else it.segs[|it.segs| - 1]], it.dir, if it.dir then 0 else i)]
            == RawInsert(flat0, it, i, stray)
  {
    hide CreateDirs, Missing;
    MissingIff(flat0, it.segs);
    assert it.segs == it.segs[..|it.segs| - 1] + [it.segs[|it.segs| - 1]];
  }

  // ------------------------------------------------------- lookup and listing

  lemma WalkNext(nodes: seq<FsNode>, s: RamTree.Path, i: nat, n: nat)
    requires InArena(nodes) && i < |s| && Walk(nodes, s[..i]) == Some(n)
    ensures n < |nodes| && Walk(nodes, s[..i + 1]) == FindDir(nodes, n, s[i])
  {
    assert s[..i + 1][..i] == s[..i] && s[..i + 1][i] == s[i];
  }

  /** What the root lists: the mounts, in order. */
  function MountEntry(mounts: seq<Mount>, k: nat): Option<Dirent> {
    if k < |mounts| then Some(Dirent(mounts[k].name, mounts[k].addr, k, mounts[k].dir)) else None
  }

  /** The entry with its cursor moved on, as readdir returns it. */
  function Moved(d: Option<Dirent>): Option<Dirent> {
    if d.None? then None else Some(d.value.(offset := d.value.offset + 1))
  }

  lemma EntryOffset(flat: seq<Rec>, s: RamTree.Path, k: nat)
    requires Entry(flat, s, k).Some?
    ensures Entry(flat, s, k).value.offset == k && k < |Kids(flat, s, |flat|)|
  {
  }

  lemma EntryNone(flat: seq<Rec>, s: RamTree.Path, k: nat)
    requires Entry(flat, s, k).None?
    ensures k >= |Kids(flat, s, |flat|)|
  {
    hide Kids;
    var ks := Kids(flat, s, |flat|);
    KidsAre(flat, s, |flat|);
    assert forall j :: 0 <= j < |ks| ==> ks[j] in ks;
  }

  lemma FileHasNone(nodes: seq<FsNode>, flat: seq<Rec>, n: nat)
    requires TreeOf(nodes, flat) && n < |flat| && !nodes[n].dir
    ensures nodes[n].children == []
  {
    assert Branches(nodes, flat, n);
  }

  /** The k-th child of a node carries the name that its path ends in. */
  lemma ChildFacts(nodes: seq<FsNode>, flat: seq<Rec>, n: nat, k: nat)
    requires TreeOf(nodes, flat) && n < |flat| && k < |nodes[n].children|
    ensures var c := nodes[n].children[k];
            && 0 < c < |nodes| == |flat| && flat[c].path != [] && nodes[c].name == flat[c].path[|flat[c].path| - 1]
            && nodes[c].dir == flat[c].dir && nodes[c].inode == flat[c].inode
  {
    assert Branches(nodes, flat, n);
  }

  /** A name is listed exactly when the path and it together resolve. */
  lemma ListedIff(flat: seq<Rec>, s: RamTree.Path, ds: seq<Dirent>, x: string)
    requires |ds| == |Kids(flat, s, |flat|)|
    requires forall k :: 0 <= k < |ds| ==> Some(ds[k]) == Moved(Entry(flat, s, k))
    ensures Has(flat, s + [x]) <==> exists k :: 0 <= k < |ds| && ds[k].name == x
  {
    hide Kids, First, Entry, Has;
    if Has(flat, s + [x]) {
      var k := KidOf(flat, s, x);
      EntryIs(flat, s, k);
      var y := Entry(flat, s, k).value.name;
      assert (s + [x])[|s|] == x && (s + [y])[|s|] == y;
      assert ds[k].name == x;
    }
    if exists k :: 0 <= k < |ds| && ds[k].name == x {
      var k :| 0 <= k < |ds| && ds[k].name == x;
      EntryIs(flat, s, k);
      KidHas(flat, s, k);
    }
  }

  /** The record that a path resolves to is among those under its parent's path. */
  lemma KidOf(flat: seq<Rec>, s: RamTree.Path, x: string) returns (k: nat)
    requires Has(flat, s + [x])
    ensures k < |Kids(flat, s, |flat|)| && Kids(flat, s, |flat|)[k] < |flat| && flat[Kids(flat, s, |flat|)[k]].path == s + [x]
  {
    hide Kids, First;
    var c := First(flat, s + [x]);
    KidsAre(flat, s, |flat|);
    assert flat[c].path[..|flat[c].path| - 1] == s;
    k :| 0 <= k < |Kids(flat, s, |flat|)| && Kids(flat, s, |flat|)[k] == c;
  }

  lemma EntryIs(flat: seq<Rec>, s: RamTree.Path, k: nat)
    requires k < |Kids(flat, s, |flat|)|
    ensures var c := Kids(flat, s, |flat|)[k];
            c < |flat| && Entry(flat, s, k).Some? && flat[c].path == s + [Entry(flat, s, k).value.name]
  {
    hide Kids;
    KidsAre(flat, s, |flat|);
    assert Kids(flat, s, |flat|)[k] in Kids(flat, s, |flat|);
  }

  lemma KidHas(flat: seq<Rec>, s: RamTree.Path, c: nat)
    requires c < |Kids(flat, s, |flat|)| && Kids(flat, s, |flat|)[c] < |flat|
    ensures Has(flat, flat[Kids(flat, s, |flat|)[c]].path)
  {
    hide Kids;
  }

  lemma HasIff(flat: seq<Rec>, s: RamTree.Path)
    ensures Has(flat, s) <==> exists c :: 0 <= c < |flat| && flat[c].path == s
  {
    hide First;
    if Has(flat, s) {
      assert flat[First(flat, s)].path == s;
    }
  }

  /** What a path resolves to is a file exactly where a regular member ended up first. */
  lemma KindIff(items: seq<Item>, stray: nat -> string, p: RamTree.Path, r: Rec)
    requires (forall i :: 0 <= i < |items| ==> items[i].segs != []) && Lookup(RawBuild(items, stray), p) == Some(r) && r.path == p
    ensures !r.dir <==> FileAt(items, stray, p, r.inode)
  {
    hide RawBuild, FileAt, First;
    RawFileIff(items, stray, p, r.inode);
  }

  lemma RootFirst(nodes: seq<FsNode>, flat: seq<Rec>)
    requires TreeOf(nodes, flat)
    ensures |flat| > 0 && First(flat, []) == 0 && flat[0].dir
  {
  }

  lemma TreeFacts(nodes: seq<FsNode>, flat: seq<Rec>, n: nat)
    requires TreeOf(nodes, flat) && n < |flat|
    ensures InArena(nodes) && |nodes| == |flat| && nodes[n].dir == flat[n].dir && nodes[n].inode == flat[n].inode
  {
  }

  /** On a clear way the next prefix is missing from the list so far, or is a directory. */
  lemma NextDir(flat: seq<Rec>, p: seq<string>, s: nat)
    requires s + 1 < |p| && ClearWay(flat, p)
    ensures var fs := CreateDirs(flat, p, s); Has(fs, p[..s + 1]) ==> fs[First(fs, p[..s + 1])].dir
  {
    hide First, CreateDirs;
    CreateDirsHas(flat, p, s, p[..s + 1]);
    if Has(flat, p[..s + 1]) {
      LookupGrows(flat, CreateDirs(flat, p, s), p[..s + 1]);
    }
  }
}
