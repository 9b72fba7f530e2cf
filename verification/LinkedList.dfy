/** The doubly linked list of src/lib/linked_list.c. The ghost sequence nodes is the list that the
    front links walk through; every operation is tied to a sequence operation on it. */
module LinkedLists {

  class Node<T> {
    var back: Node?<T>
    var front: Node?<T>
    const item: T

    constructor (item: T)
      ensures this.item == item && back == null && front == null
    {
      this.item := item;
      back, front := null, null;
    }
  }

  /** s without its element k. */
  function Without<T>(s: seq<T>, k: nat): seq<T>
    requires k < |s|
  {
    s[..k] + s[k + 1..]
  }

  ghost predicate Distinct<T>(s: seq<T>) {
    forall i, j :: 0 <= i < j < |s| ==> s[i] != s[j]
  }

  /** The node at an index, null outside the list. */
  ghost function At<T>(nodes: seq<Node<T>>, i: int): Node?<T> {
    if 0 <= i < |nodes| then nodes[i] else null
  }

  ghost function ItemsOf<T>(nodes: seq<Node<T>>): (s: seq<T>)
    ensures |s| == |nodes|
    ensures forall i | 0 <= i < |s| :: s[i] == nodes[i].item
  {
    seq(|nodes|, i requires 0 <= i < |nodes| => nodes[i].item)
  }

  /** s with x before its element k. */
  function With<T>(s: seq<T>, k: nat, x: T): seq<T>
    requires k <= |s|
  {
    s[..k] + [x] + s[k..]
  }

  /** Node i points to its two neighbours. */
  ghost predicate LinkAt<T>(nodes: seq<Node<T>>, i: nat)
    requires i < |nodes|
    reads nodes
  {
    nodes[i].front == At(nodes, i + 1) && nodes[i].back == At(nodes, i - 1)
  }

  /** Every node points to its neighbours, both ways. */
  ghost predicate Linked<T>(nodes: seq<Node<T>>)
    reads nodes
  {
    forall i: nat {:trigger LinkAt(nodes, i)} :: i < |nodes| ==> LinkAt(nodes, i)
  }

  /** Node j points past node k. */
  ghost predicate SkipAt<T>(s: seq<Node<T>>, k: nat, j: nat)
    requires j < |s|
    reads s
  {
    && s[j].front == At(s, if j == k - 1 then k + 1 else j + 1)
    && s[j].back == At(s, if j == k + 1 then k - 1 else j - 1)
  }

  /** Links that skip node k are the links of the sequence without it. */
  lemma LinkedWithout<T>(s: seq<Node<T>>, k: nat)
    requires k < |s|
    requires forall j: nat {:trigger SkipAt(s, k, j)} | j < |s| && j != k :: SkipAt(s, k, j)
    ensures Linked(Without(s, k))
  {
    var t := Without(s, k);
    forall i: nat | i < |t|
      ensures LinkAt(t, i)
    {
      var j := if i < k then i else i + 1;
      assert t[i] == s[j] && SkipAt(s, k, j);
    }
  }

  /** Node j has x as its neighbour where x goes, before node k. */
  ghost predicate PassAt<T>(s: seq<Node<T>>, k: nat, x: Node<T>, j: nat)
    requires j < |s|
    reads s
  {
    && s[j].front == (if j == k - 1 then x else At(s, j + 1))
    && s[j].back == (if j == k then x else At(s, j - 1))
  }

  /** Links that pass through x before node k are the links of the sequence with it. */
  lemma LinkedWith<T>(s: seq<Node<T>>, k: nat, x: Node<T>)
    requires k < |s|
    requires x.front == s[k] && x.back == At(s, k - 1)
    requires forall j: nat {:trigger PassAt(s, k, x, j)} | j < |s| :: PassAt(s, k, x, j)
    ensures Linked(With(s, k, x))
  {
    var t := With(s, k, x);
    forall i: nat | i < |t|
      ensures LinkAt(t, i)
    {
      if i == k {
        assert t[i] == x;
      } else {
        var j := if i < k then i else i - 1;
        assert t[i] == s[j] && PassAt(s, k, x, j);
      }
    }
  }

  lemma DistinctAt<T>(s: seq<T>, i: int, j: int)
    requires Distinct(s)
    ensures 0 <= i < |s| && 0 <= j < |s| && s[i] == s[j] ==> i == j
  {
  }

  lemma WithoutKeeps<T>(s: seq<Node<T>>, k: nat)
    requires k < |s| && Distinct(s)
    ensures Distinct(Without(s, k)) && s[k] !in Without(s, k)
    ensures ItemsOf(Without(s, k)) == Without(ItemsOf(s), k)
    ensures |Without(s, k)| == |s| - 1
    ensures At(Without(s, k), 0) == if k == 0 then At(s, 1) else s[0]
    ensures At(Without(s, k), |s| - 2) == if k == |s| - 1 then At(s, k - 1) else s[|s| - 1]
  {
  }

  lemma WithKeeps<T>(s: seq<Node<T>>, k: nat, x: Node<T>)
    requires k <= |s| && Distinct(s) && x !in s
    ensures Distinct(With(s, k, x))
    ensures ItemsOf(With(s, k, x)) == With(ItemsOf(s), k, x.item)
    ensures |With(s, k, x)| == |s| + 1 && With(s, k, x)[k] == x
    ensures At(With(s, k, x), 0) == if k == 0 then x else s[0]
    ensures k < |s| ==> At(With(s, k, x), |s|) == s[|s| - 1]
  {
  }

  class LinkedList<T> {
    var head: Node?<T>
    var tail: Node?<T>
    var size: nat
    ghost var nodes: seq<Node<T>>

    /** front and back are mutually inverse along nodes, no node occurs twice (so the links form
        no cycle), head and tail are the ends, and size is the number of nodes. */
    ghost predicate Valid()
      reads this, nodes
    {
      && size == |nodes|
      && Distinct(nodes)
      && head == At(nodes, 0)
      && tail == At(nodes, size - 1)
      && Linked(nodes)
    }

    ghost function Items(): (s: seq<T>)
      reads this
    {
      ItemsOf(nodes)
    }

    constructor ()
      ensures Valid() && nodes == []
    {
      head, tail, size := null, null, 0;
      nodes := [];
    }

    /** In a valid list every neighbour of a node is a node of the list and points back to it, and
        only the ends have none. */
    lemma NeighboursAgree(n: Node<T>)
      requires Valid() && n in nodes
      ensures n.front == null <==> n == tail
      ensures n.back == null <==> n == head
      ensures n.front != null ==> n.front in nodes && n.front.back == n
      ensures n.back != null ==> n.back in nodes && n.back.front == n
    {
      var i :| 0 <= i < |nodes| && nodes[i] == n;
      assert LinkAt(nodes, i);
      if i + 1 < |nodes| {
        assert LinkAt(nodes, i + 1);
      }
      if i > 0 {
        assert LinkAt(nodes, i - 1);
      }
    }

    /** linked_list_get_index, which starts from the nearer end; hops counts the links followed. */
    method GetIndex(index: nat) returns (cur: Node?<T>, ghost hops: nat)
      requires Valid()
      ensures cur == At(nodes, index)
      ensures hops <= size / 2
    {
      hops := 0;
      if index >= size {
        return null, 0;
      }
      var pos := 0;
      if index <= size / 2 {
        cur := head;
        while pos < index
          invariant pos <= index && cur == nodes[pos] && hops == pos
        {
          assert LinkAt(nodes, pos);
          cur := cur.front;
          pos := pos + 1;
          hops := hops + 1;
        }
      } else {
        cur := tail;
        pos := size - 1;
        while pos > index
          invariant index <= pos < size && cur == nodes[pos] && hops == size - 1 - pos
        {
          assert LinkAt(nodes, pos);
          cur := cur.back;
          pos := pos - 1;
          hops := hops + 1;
        }
      }
    }

    /** linked_list_append; memory says whether the allocation succeeds. */
    method Append(item: T, memory: bool) returns (code: int)
      requires Valid()
      modifies this, nodes`front
      ensures Valid()
      ensures code == if memory then 0 else 1
      ensures !memory ==> nodes == old(nodes)
      ensures memory ==>
                && |nodes| == |old(nodes)| + 1 && nodes[..|old(nodes)|] == old(nodes)
                && fresh(nodes[|old(nodes)|])
      ensures Items() == if memory then old(Items()) + [item] else old(Items())
    {
      if !memory {
        return 1;
      }
      var newNode := new Node(item);
      size := size + 1;
      if tail == null {
        head := newNode;
      } else {
        newNode.back := tail;
        tail.front := newNode;
      }
      tail := newNode;
      ghost var s := nodes;
      nodes := nodes + [newNode];
      forall i: nat | i < |nodes|
        ensures LinkAt(nodes, i)
      {
        if i < |s| {
          assert old(LinkAt(s, i));
        }
      }
      return 0;
    }

    /** The assignments of linked_list_insert, for a new node before node k. */
    method LinkBefore(target: Node<T>, newNode: Node<T>, ghost k: nat)
      requires Valid() && k < size && nodes[k] == target && newNode !in nodes
      modifies this, newNode`front, newNode`back, nodes`front, nodes`back
      ensures nodes == With(old(nodes), k, newNode) && size == old(size) + 1
      ensures head == (if k == 0 then newNode else old(head)) && tail == old(tail)
      ensures newNode.front == target && newNode.back == At(old(nodes), k - 1)
      ensures forall j: nat {:trigger PassAt(old(nodes), k, newNode, j)} | j < |old(nodes)|
              :: PassAt(old(nodes), k, newNode, j)
    {
      ghost var s := nodes;
      assert LinkAt(s, k);
      size := size + 1;
      newNode.back := target.back;
      newNode.front := target;
      if target.back != null {
        target.back.front := newNode;
      } else {
        head := newNode;
      }
      target.back := newNode;
      nodes := With(s, k, newNode);
      hide Distinct, With;
      forall j: nat | j < |s|
        ensures PassAt(s, k, newNode, j)
      {
        assert old(LinkAt(s, j));
        DistinctAt(s, j, k);
        DistinctAt(s, j, k - 1);
      }
    }

    method InsertNode(target: Node<T>, newNode: Node<T>, ghost k: nat)
      requires Valid() && k < size && nodes[k] == target && newNode !in nodes
      modifies this, newNode`front, newNode`back, nodes`front, nodes`back
      ensures Valid() && |nodes| == |old(nodes)| + 1 && nodes[k] == newNode
      ensures nodes == With(old(nodes), k, newNode)
      ensures Items() == With(old(Items()), k, newNode.item)
    {
      LinkBefore(target, newNode, k);
      WithKeeps(old(nodes), k, newNode);
      LinkedWith(old(nodes), k, newNode);
    }

    /** linked_list_insert: before the node at index, or at the end when there is none. */
    method Insert(index: nat, item: T, memory: bool) returns (code: int)
      requires Valid()
      modifies this, nodes`front, nodes`back
      ensures Valid()
      ensures code == if memory then 0 else 1
      ensures !memory ==> nodes == old(nodes)
      ensures memory ==>
                var k := if index < |old(nodes)| then index else |old(nodes)|;
                |nodes| == |old(nodes)| + 1 && fresh(nodes[k]) && nodes == With(old(nodes), k, nodes[k])
                && Items() == With(old(Items()), k, item)
    {
      if index >= size {
        code := Append(item, memory);
        return;
      }
      ghost var hops;
      var target;
      target, hops := GetIndex(index);
      if !memory {
        return 1;
      }
      hide Distinct, Linked, With, ItemsOf;
      var newNode := new Node(item);
      InsertNode(target, newNode, index);
      return 0;
    }

    /** The assignments of linked_list_remove, for node k. */
    method Unlink(item: Node<T>, ghost k: nat)
      requires Valid() && k < size && nodes[k] == item
      modifies this, nodes`front, nodes`back
      ensures nodes == Without(old(nodes), k) && size == old(size) - 1
      ensures head == (if k == 0 then At(old(nodes), 1) else old(head))
      ensures tail == (if k == old(size) - 1 then At(old(nodes), k - 1) else old(tail))
      ensures item.back == null && item.front == null
      ensures forall j: nat {:trigger SkipAt(old(nodes), k, j)} | j < |old(nodes)| && j != k :: SkipAt(old(nodes), k, j)
    {
      ghost var s := nodes;
      hide Distinct, Without;
      assert LinkAt(s, k);
      DistinctAt(s, k - 1, k);
      DistinctAt(s, k, k + 1);
      var back := item.back;
      var front := item.front;
      if back != null {
        back.front := front;
      } else {
        head := front;
      }
      if front != null {
        front.back := back;
      } else {
        tail := back;
      }
      size := size - 1;
      item.back := null;
      item.front := null;
      nodes := Without(s, k);
      forall j: nat | j < |s| && j != k
        ensures SkipAt(s, k, j)
      {
        assert old(LinkAt(s, j));
        DistinctAt(s, j, k);
        DistinctAt(s, j, k - 1);
        DistinctAt(s, j, k + 1);
      }
    }

    /** linked_list_remove of the node at index k; freed lists the items passed to free_function. */
    method Remove(item: Node?<T>, ghost k: nat) returns (code: int, freed: seq<T>)
      requires Valid()
      requires item != null ==> k < |nodes| && nodes[k] == item
      modifies this, nodes`front, nodes`back
      ensures Valid()
      ensures item == null ==> code == 1 && freed == [] && nodes == old(nodes)
      ensures item != null ==> code == 0 && freed == [item.item] && nodes == Without(old(nodes), k)
      ensures item != null ==> item.back == null && item.front == null
      ensures item != null ==> Items() == Without(old(Items()), k)
    {
      if item == null {
        return 1, [];
      }
      Unlink(item, k);
      WithoutKeeps(old(nodes), k);
      LinkedWithout(old(nodes), k);
      return 0, [item.item];
    }

    method Pop(index: nat) returns (code: int, freed: seq<T>)
      requires Valid()
      modifies this, nodes`front, nodes`back
      ensures Valid()
      ensures |old(nodes)| <= index ==> code == 1 && freed == [] && nodes == old(nodes)
      ensures index < |old(nodes)| ==>
                && code == 0 && freed == [old(Items())[index]]
                && nodes == Without(old(nodes), index)
      ensures Items() == if index < |old(nodes)| then Without(old(Items()), index) else old(Items())
      ensures forall n | n in nodes :: n in old(nodes)
    {
      ghost var hops;
      var item;
      item, hops := GetIndex(index);
      if item == null {
        return 1, [];
      }
      code, freed := Remove(item, index);
    }

    /** linked_list_clear: every item is freed exactly once, from the head on. */
    method Clear() returns (freed: seq<T>)
      requires Valid()
      modifies this
      ensures Valid() && nodes == []
      ensures freed == old(Items())
    {
      freed := [];
      var cur := head;
      ghost var i := 0;
      while cur != null
        invariant i <= |nodes| && cur == At(nodes, i)
        invariant freed == Items()[..i]
        decreases |nodes| - i
      {
        assert LinkAt(nodes, i);
        var next := cur.front;
        freed := freed + [cur.item];
        cur := next;
        i := i + 1;
      }
      head := null;
      tail := null;
      size := 0;
      nodes := [];
    }
  }
}
