/** The singly linked list of file nodes that both file systems keep, with `find_file` and unlinking. */
module FileList {
  import opened Words

  /** The first entry with this name, or the number of entries. */
  function FindName<D>(entries: seq<(string, D)>, name: string): (r: nat)
    ensures r <= |entries|
    ensures forall k :: 0 <= k < r ==> entries[k].0 != name
    ensures r < |entries| ==> entries[r].0 == name
  {
    var names := seq(|entries|, i requires 0 <= i < |entries| => entries[i].0);
    assert forall k :: 0 <= k < |entries| ==> names[k] == entries[k].0;
    IndexOf(names, name, 0)
  }

  lemma FindNameIs<D>(entries: seq<(string, D)>, name: string, i: nat)
    requires i <= |entries|
    requires forall k :: 0 <= k < i ==> entries[k].0 != name
    requires i < |entries| ==> entries[i].0 == name
    ensures FindName(entries, name) == i
  {
  }

  class Node<D> {
    var name: string
    var data: D
    var next: Node?<D>

    constructor (name: string, data: D)
      ensures this.name == name && this.data == data
    {
      this.name, this.data, this.next := name, data, null;
    }
  }

  class List<D> {
    var head: Node?<D>
    ghost var nodes: seq<Node<D>>

    /** `nodes` is the list from the head; it is finite and has no cycle. */
    ghost predicate Valid()
      reads this, nodes
    {
      && AllDifferent(nodes)
      && head == At(0)
      && forall i {:trigger nodes[i].next} :: 0 <= i < |nodes| ==> nodes[i].next == At(i + 1)
    }

    ghost function At(i: nat): Node?<D>
      reads this
    {
      if i < |nodes| then nodes[i] else null
    }

    /** Names and descriptors, from the head. */
    ghost function Entries(): (r: seq<(string, D)>)
      reads this, nodes
      ensures |r| == |nodes| && forall i :: 0 <= i < |nodes| ==> r[i] == (nodes[i].name, nodes[i].data)
    {
      seq(|nodes|, i requires 0 <= i < |nodes| reads this, nodes => (nodes[i].name, nodes[i].data))
    }

    constructor ()
      ensures Valid() && nodes == [] && Entries() == []
    {
      head, nodes := null, [];
    }

    method Find(name: string) returns (node: Node?<D>, ghost i: nat)
      requires Valid()
      ensures i == FindName(Entries(), name)
      ensures node == At(FindName(Entries(), name))
    {
      node, i := head, 0;
      while node != null && node.name != name
        invariant i <= |nodes| && node == At(i)
        invariant forall k :: 0 <= k < i ==> nodes[k].name != name
        decreases |nodes| - i
      {
        node, i := node.next, i + 1;
      }
      FindNameIs(Entries(), name, i);
    }

    method Prepend(node: Node<D>)
      requires Valid() && node !in nodes
      modifies this, node
      ensures Valid() && Entries() == [(old(node.name), old(node.data))] + old(Entries())
      ensures nodes == [node] + old(nodes)
    {
      ghost var entries := Entries();
      node.next := head;
      head := node;
      nodes := [node] + nodes;
      assert Entries() == [(node.name, node.data)] + entries;
    }

    /** Stores a descriptor in the `i`-th node. */
    method SetData(node: Node<D>, ghost i: nat, data: D)
      requires Valid() && i < |nodes| && node == nodes[i]
      modifies node`data
      ensures Valid() && Entries() == old(Entries())[i := (node.name, data)] && node.data == data
    {
      ghost var entries := Entries();
      node.data := data;
      assert Entries() == entries[i := (node.name, data)];
    }

    /** Stores a name in the `i`-th node. */
    method SetName(node: Node<D>, ghost i: nat, name: string)
      requires Valid() && i < |nodes| && node == nodes[i]
      modifies node`name
      ensures Valid() && Entries() == old(Entries())[i := (name, node.data)] && node.name == name
    {
      ghost var entries := Entries();
      node.name := name;
      assert Entries() == entries[i := (name, node.data)];
    }

    /** Forgets every node without visiting it. */
    method Clear()
      modifies this
      ensures Valid() && nodes == [] && Entries() == []
    {
      head, nodes := null, [];
    }

    /** Walks with a trailing pointer and unlinks the first node with this name. */
    method Remove(name: string) returns (node: Node?<D>, ghost i: nat)
      requires Valid()
      modifies this, nodes
      ensures Valid()
      ensures i == FindName(old(Entries()), name) && node == old(At(i))
      ensures node != null ==> (node.name, node.data) == old(Entries())[i]
      ensures Entries() == if i < |old(Entries())| then Without(old(Entries()), i) else old(Entries())
    {
      ghost var entries := Entries();
      var prev: Node?<D> := null;
      node, i := head, 0;
      while node != null
        invariant i <= |nodes| && node == At(i)
        invariant if i == 0 then prev == null else prev == nodes[i - 1]
        invariant forall k :: 0 <= k < i ==> nodes[k].name != name
        decreases |nodes| - i
      {
        if node.name == name {
          FindNameIs(entries, name, i);
          UnlinkAfter(prev, node, i);
          return;
        }
        prev, node, i := node, node.next, i + 1;
      }
      FindNameIs(entries, name, i);
    }

    method UnlinkAfter(prev: Node?<D>, node: Node<D>, ghost i: nat)
      requires Valid() && i < |nodes| && node == nodes[i]
      requires if i == 0 then prev == null else prev == nodes[i - 1]
      modifies this, nodes
      ensures Valid() && Entries() == Without(old(Entries()), i)
      ensures node.name == old(node.name) && node.data == old(node.data)
    {
      hide Valid, Entries;
      if prev != null {
        SkipNext(prev, i);
      } else {
        DropHead();
      }
    }

    method DropHead()
      requires Valid() && |nodes| > 0
      modifies this
      ensures Valid() && Entries() == Without(old(Entries()), 0)
    {
      ghost var entries := Entries();
      head := head.next;
      nodes := nodes[1..];
      assert Entries() == Without(entries, 0);
    }

    method SkipNext(prev: Node<D>, ghost i: nat)
      requires Valid() && 0 < i < |nodes| && prev == nodes[i - 1]
      modifies this`nodes, prev`next
      ensures Valid() && Entries() == Without(old(Entries()), i)
    {
      ghost var entries, was := Entries(), nodes;
      WithoutStaysDifferent(was, i - 1);
      WithoutStaysDifferent(was, i);
      hide AllDifferent;
      prev.next := prev.next.next;
      nodes := Without(was, i);
      assert Entries() == Without(entries, i);
      hide Entries, Without;
      forall j | 0 <= j < |nodes| ensures nodes[j].next == At(j + 1) {
        assert nodes[j] == if j < i then was[j] else was[j + 1];
      }
    }
  }
}
