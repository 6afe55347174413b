/**
 The singly linked list of lib/list.c. A list is given by its first node, null
 when empty; `spine` is the ghost sequence of its nodes.
 */
module List {
  class Node<T> {
    const data: T
    var next: Node?<T>

    constructor (data: T)
      ensures this.data == data && next == null
    {
      this.data, next := data, null;
    }
  }

  /** `l` is the list whose nodes, in order, are `spine`. */
  ghost predicate IsList<T>(l: Node?<T>, spine: seq<Node<T>>)
    reads spine
  {
    && (l == if spine == [] then null else spine[0])
    && (forall i :: 0 <= i < |spine| - 1 ==> spine[i].next == spine[i + 1])
    && (spine != [] ==> spine[|spine| - 1].next == null)
    && (forall i, j :: 0 <= i < j < |spine| ==> spine[i] != spine[j])
  }

  lemma NextOf<T>(l: Node?<T>, spine: seq<Node<T>>, i: nat)
    requires IsList(l, spine) && i < |spine| - 1
    ensures spine[i].next == spine[i + 1]
  {
  }

  ghost function Data<T>(spine: seq<Node<T>>): (s: seq<T>)
    ensures |s| == |spine|
  {
    seq(|spine|, i requires 0 <= i < |spine| => spine[i].data)
  }

  /** list_add: the value goes to the tail, through the last node's link. */
  method ListAdd<T>(l: Node?<T>, x: T, ghost spine: seq<Node<T>>) returns (r: Node<T>, ghost spine': seq<Node<T>>)
    requires IsList(l, spine)
    modifies spine
    ensures IsList(r, spine') && Data(spine') == Data(spine) + [x]
    ensures l != null ==> r == l
    ensures |spine'| == |spine| + 1 && spine'[..|spine|] == spine && fresh(spine'[|spine|])
  {
    var entry := new Node(x);
    spine' := spine + [entry];
    if l == null {
      return entry, spine';
    }
    var last := l;
    ghost var i := 0;
    while last.next != null
      invariant IsList(l, spine) && 0 <= i < |spine| && last == spine[i]
      decreases |spine| - i
    {
      assert i < |spine| - 1;
      last := last.next;
      i := i + 1;
    }
    if i < |spine| - 1 {
      NextOf(l, spine, i);
    }
    assert entry !in spine;
    last.next := entry;
    return l, spine';
  }

  /** list_get: the node at index `idx`, null beyond the end. The empty list fails the test of the magic number. */
  method ListGet<T>(l: Node?<T>, idx: nat, ghost spine: seq<Node<T>>) returns (r: Node?<T>)
    requires IsList(l, spine)
    ensures r == if idx < |spine| then spine[idx] else null
  {
    var cur: Node?<T> := l;
    var i := 0;
    while i < idx && cur != null
      invariant i <= idx && i <= |spine| && cur == if i < |spine| then spine[i] else null
    {
      cur := cur.next;
      i := i + 1;
    }
    return cur;
  }

  /** The index of the first value that satisfies `p`; |s| when none does. */
  function FirstWhere<T>(s: seq<T>, p: T -> bool): (i: nat)
    ensures i <= |s| && (i < |s| ==> p(s[i])) && forall j :: 0 <= j < i ==> !p(s[j])
  {
    if s == [] || p(s[0]) then 0 else 1 + FirstWhere(s[1..], p)
  }

  /** list_foreach with an iterator that stops where `p` holds: the first such node, null if there is none. */
  method ListForeach<T>(l: Node?<T>, p: T -> bool, ghost spine: seq<Node<T>>) returns (r: Node?<T>)
    requires IsList(l, spine)
    ensures var k := FirstWhere(Data(spine), p); r == if k < |spine| then spine[k] else null
  {
    var entry := l;
    ghost var i := 0;
    while entry != null
      invariant i <= |spine| && entry == if i < |spine| then spine[i] else null
      invariant forall j :: 0 <= j < i ==> !p(Data(spine)[j])
      decreases |spine| - i
    {
      if p(entry.data) {
        assert p(Data(spine)[i]);
        return entry;
      }
      entry := entry.next;
      i := i + 1;
    }
    return null;
  }
}
