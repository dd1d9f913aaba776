/** The doubly linked list of req_list.c: a root node followed by the entries, each with a link
    back to the one before it. */
module ReqList {
  import opened Options
  import opened HeaderMap

  class Node {
    var key: string
    var value: string
    var next: Node?
    var prev: Node?

    constructor (key: string, value: string)
      ensures this.key == key && this.value == value && next == null && prev == null
    {
      this.key, this.value, next, prev := key, value, null, null;
    }
  }

  class List {
    const root: Node
    ghost var nodes: seq<Node>   // the nodes behind the root
    ghost var items: seq<Entry>  // what they hold

    ghost function At(i: nat): Node?
      reads this
    {
      if i < |nodes| then nodes[i] else null
    }

    ghost function Before(i: nat): Node
      requires i <= |nodes|
      reads this
    {
      if i == 0 then root else nodes[i - 1]
    }

    /** Forward and back links agree, from the root to the last node. */
    ghost predicate Linked()
      reads this, root, nodes
    {
      && root !in nodes
      && (forall i, j :: 0 <= i < j < |nodes| ==> nodes[i] != nodes[j])
      && root.prev == null && root.next == At(0)
      && (nodes != [] ==> nodes[0].prev == root && nodes[|nodes| - 1].next == null)
      && (forall i, j :: 0 <= i < |nodes| && j == i + 1 < |nodes| ==>
            nodes[i].next == nodes[j] && nodes[j].prev == nodes[i])
    }

    ghost predicate Valid()
      reads this, root, nodes
    {
      && Linked()
      && |items| == |nodes|
      && forall i :: 0 <= i < |nodes| ==> items[i] == Entry(nodes[i].key, nodes[i].value)
    }

    constructor ()
      ensures Valid() && items == [] && nodes == [] && fresh(root)
    {
      root := new Node("", "");
      nodes, items := [], [];
    }

    /** req_list_get_last */
    method GetLast() returns (last: Node)
      requires Valid()
      ensures last == Before(|nodes|)
    {
      last := root;
      ghost var i := 0;
      while last.next != null
        invariant 0 <= i <= |nodes| && last == Before(i)
        decreases |nodes| - i
      {
        last := last.next;
        i := i + 1;
      }
      assert last.next == At(i);
    }

    /** req_list_add */
    method Add(tree: Node)
      requires Valid() && tree != root && tree !in nodes && tree.next == null
      modifies this, root, nodes, tree
      ensures Valid() && nodes == old(nodes) + [tree]
      ensures items == old(items) + [Entry(old(tree.key), old(tree.value))]
    {
      var last := GetLast();
      last.next := tree;
      tree.prev := last;
      nodes, items := nodes + [tree], items + [Entry(tree.key, tree.value)];
    }

    /** The relinking of req_list_remove; the root before a listed node keeps its `prev` from
        being null. */
    method Unlink(found: Node, ghost at: nat)
      requires Linked() && at < |nodes| && nodes[at] == found
      modifies `nodes, root`next, nodes`next, nodes`prev
      ensures Linked()
      ensures nodes == old(nodes)[..at] + old(nodes)[at + 1..]
    {
      assert found.prev == Before(at) && found.next == At(at + 1);
      if found.next != null && found.prev != null {
        found.prev.next := found.next;
        found.next.prev := found.prev;
      } else if found.next != null {
        assert false;
      } else if found.prev != null {
        found.prev.next := null;
      }
      nodes := nodes[..at] + nodes[at + 1..];
    }

    /** req_list_remove, on a listed node */
    method Remove(found: Node, ghost at: nat)
      requires Valid() && at < |nodes| && nodes[at] == found
      modifies this, root, nodes
      ensures Valid()
      ensures nodes == old(nodes)[..at] + old(nodes)[at + 1..]
      ensures items == old(items)[..at] + old(items)[at + 1..]
    {
      Unlink(found, at);
      items := items[..at] + items[at + 1..];
    }

    /** req_list_clear */
    method Clear()
      requires Valid()
      modifies this, root, nodes
      ensures Valid() && nodes == [] && root.next == null
    {
      var found := root.next;
      while found != null
        invariant Valid() && found == At(0)
        invariant |nodes| <= |old(nodes)| && nodes == old(nodes)[|old(nodes)| - |nodes|..]
        decreases |nodes|
      {
        Remove(found, 0);
        found := root.next;
      }
    }

    /** The search of req_list_set_key and req_list_get_key. */
    method Find(key: string) returns (found: Node?)
      requires Valid()
      ensures var at := IndexFrom(items, key, 0);
        found == if at.Some? then nodes[at.value] else null
    {
      found := root;
      ghost var i := 0;
      while found.next != null
        invariant found != null && 0 <= i <= |nodes| && found == Before(i)
        invariant IndexFrom(items, key, 0) == IndexFrom(items, key, i)
        decreases |nodes| - i
      {
        assert found.next == At(i);
        found := found.next;
        if SameKey(found.key, key) {
          return;
        }
        i := i + 1;
      }
      assert found.next == At(i);
      found := null;
    }

    /** The value of a listed node is replaced. */
    method Replace(found: Node, value: string, ghost at: nat)
      requires Valid() && at < |nodes| && nodes[at] == found
      modifies found`value, `items
      ensures Valid() && items == old(items)[at := old(items)[at].(value := value)]
    {
      found.value := value;
      items := items[at := items[at].(value := value)];
    }

    /** req_list_set_key: a found value is replaced in its node, else a node is added. */
    method SetKey(key: string, value: string)
      requires Valid()
      modifies this, root, nodes
      ensures Valid() && items == Set(old(items), key, value)
      ensures forall n :: n in nodes ==> n in old(nodes) || fresh(n)
    {
      var found := Find(key);
      if found != null {
        Replace(found, value, IndexFrom(items, key, 0).value);
      } else {
        var tree := new Node(key, value);
        Add(tree);
      }
    }

    /** req_list_get_key */
    method GetKey(key: string) returns (value: Option<string>)
      requires Valid()
      ensures value == Get(items, key)
    {
      var found := Find(key);
      value := if found == null then None else Some(found.value);
    }
  }
}
