/** The singly linked queue with begin and end pointers that every other component is built on. */
module Queues {

  class Node<T> {
    const data: T
    var next: Node?<T>

    constructor (data: T)
      ensures this.data == data && next == null
    {
      this.data := data;
      next := null;
    }
  }

  function RemoveAt<T>(s: seq<T>, k: nat): seq<T>
    requires k < |s|
  {
    s[..k] + s[k + 1..]
  }

  lemma RemoveAtKeeps<T>(s: seq<T>, k: nat)
    requires k < |s|
    ensures |RemoveAt(s, k)| == |s| - 1
    ensures forall i :: 0 <= i < |s| - 1 ==> RemoveAt(s, k)[i] == if i < k then s[i] else s[i + 1]
    ensures multiset(s) == multiset([s[k]]) + multiset(RemoveAt(s, k))
  {
    assert s == s[..k] + [s[k]] + s[k + 1..];
  }

  class Queue<T> {
    var begin: Node?<T>
    var end: Node?<T>
    /** The nodes reachable from `begin`, in order. */
    ghost var nodes: seq<Node<T>>
    /** The data those nodes carry. */
    ghost var contents: seq<T>

    ghost predicate Valid()
      reads this, nodes
    {
      && |nodes| == |contents|
      && (nodes == [] ==> begin == null && end == null)
      && (nodes != [] ==> begin == nodes[0] && end == nodes[|nodes| - 1] && nodes[|nodes| - 1].next == null)
      && (forall i {:trigger nodes[i].next} :: 0 <= i < |nodes| - 1 ==> nodes[i].next == nodes[i + 1])
      && (forall i :: 0 <= i < |nodes| ==> nodes[i].data == contents[i])
      && (forall i, j :: 0 <= i < j < |nodes| ==> nodes[i] != nodes[j])
    }

    /** Node in front of position `k`: what the C code keeps as its previous-node pointer. */
    ghost predicate Precedes(prev: Node?<T>, k: nat)
      reads this
    {
      && k < |nodes|
      && (prev == null ==> k == 0)
      && (prev != null ==> 0 < k && prev == nodes[k - 1])
    }

    constructor ()
      ensures Valid() && contents == [] && nodes == []
    {
      begin, end := null, null;
      nodes, contents := [], [];
    }

    method Append(data: T)
      requires Valid()
      modifies this, nodes
      ensures Valid() && contents == old(contents) + [data]
      ensures |nodes| == |old(nodes)| + 1 && nodes[..|old(nodes)|] == old(nodes) && fresh(nodes[|nodes| - 1])
    {
      var node := new Node(data);
      if begin == null {
        begin, end := node, node;
      } else {
        end.next := node;
        end := node;
      }
      nodes, contents := nodes + [node], contents + [data];
    }

    /** Takes the first node; on an empty queue returns null and changes nothing. */
    method Take() returns (node: Node?<T>)
      requires Valid()
      modifies this
      ensures Valid()
      ensures node == null <==> old(contents) == []
      ensures old(contents) == [] ==> contents == [] && nodes == []
      ensures old(contents) != [] ==>
                && node == old(nodes)[0] && node.data == old(contents)[0]
                && contents == old(contents)[1..] && nodes == old(nodes)[1..]
    {
      node := begin;
      if node != null {
        begin := node.next;
        nodes, contents := nodes[1..], contents[1..];
      }
      if begin == null {
        end := begin;
      }
    }

    /** Unlinks the node after `prev`, or the first one when `prev` is null, repairing the end pointer. */
    method RemoveAfter(prev: Node?<T>, ghost k: nat) returns (data: T)
      requires Valid() && Precedes(prev, k)
      modifies this, nodes
      ensures Valid() && data == old(contents)[k]
      ensures contents == RemoveAt(old(contents), k) && nodes == RemoveAt(old(nodes), k)
    {
      if prev == null {
        data := begin.data;
        begin := begin.next;
        if begin == null {
          end := null;
        }
      } else {
        var candidate := prev.next;
        data := candidate.data;
        prev.next := candidate.next;
        if prev.next == null {
          end := prev;
        }
      }
      nodes, contents := RemoveAt(nodes, k), RemoveAt(contents, k);
    }

    method Length() returns (counter: nat)
      requires Valid()
      ensures counter == |contents|
    {
      counter := 0;
      var cur := begin;
      while cur != null
        invariant counter <= |nodes|
        invariant cur == if counter < |nodes| then nodes[counter] else null
        decreases |nodes| - counter
      {
        counter := counter + 1;
        cur := cur.next;
      }
    }
  }
}
