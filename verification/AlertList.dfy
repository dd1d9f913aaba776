/** The singly linked list with a sentinel that holds the alerts, both those waiting for the
    worker (s_alert_queue) and those created (s_alert_list).  An alert's struct is kept in the
    node that points to it. */
module AlertList {
  import opened Options
  import opened AlertModel

  class Node {
    var next: Node?
    var data: Option<Rec>   // None in the sentinel

    constructor (data: Option<Rec>)
      ensures this.data == data && next == null
    {
      this.data, next := data, null;
    }
  }

  class List {
    const head: Node
    ghost var nodes: seq<Node>  // the nodes behind the sentinel
    ghost var items: seq<Rec>   // their alerts

    ghost function At(i: nat): Node?
      reads this
    {
      if i < |nodes| then nodes[i] else null
    }

    ghost function Before(i: nat): Node
      requires i <= |nodes|
      reads this
    {
      if i == 0 then head else nodes[i - 1]
    }

    ghost predicate Valid()
      reads this, head, nodes
    {
      && |items| == |nodes|
      && head !in nodes
      && (forall i, j :: 0 <= i < j < |nodes| ==> nodes[i] != nodes[j])
      && head.data == None
      && head.next == At(0)
      && (forall i, j :: 0 <= i < |nodes| && j == i + 1 < |nodes| ==> nodes[i].next == nodes[j])
      && (nodes != [] ==> nodes[|nodes| - 1].next == null)
      && (forall i :: 0 <= i < |nodes| ==> nodes[i].data == Some(items[i]))
    }

    constructor ()
      ensures Valid() && items == [] && nodes == [] && fresh(head)
    {
      head := new Node(None);
      nodes, items := [], [];
    }

    /** duer_alert_list_push: walk to the last node and link a new one behind it. */
    method Push(data: Rec)
      requires Valid()
      modifies this, head, nodes
      ensures Valid()
      ensures items == old(items) + [data]
      ensures |nodes| == |old(nodes)| + 1 && nodes[..|old(nodes)|] == old(nodes)
      ensures fresh(nodes[|old(nodes)|])
    {
      var newNode := new Node(Some(data));
      var tail := head;
      ghost var i := 0;
      while tail.next != null
        invariant 0 <= i <= |nodes| && tail == Before(i)
        decreases |nodes| - i
      {
        tail := tail.next;
        i := i + 1;
      }
      assert tail.next == At(i);
      tail.next := newNode;
      nodes, items := nodes + [newNode], items + [data];
    }

    /** Takes the node behind `pre` out of the chain. */
    method Unlink(pre: Node, ghost at: nat)
      requires Valid() && at < |nodes| && pre == Before(at)
      modifies this, pre
      ensures Valid()
      ensures nodes == WithoutIndex(old(nodes), at)
      ensures items == WithoutIndex(old(items), at)
    {
      assert pre.next == nodes[at];
      pre.next := pre.next.next;
      nodes, items := nodes[..at] + nodes[at + 1..], items[..at] + items[at + 1..];
    }

    /** duer_alert_list_remove: unlink `node`; false when it is not listed. */
    method Remove(node: Node) returns (removed: bool, ghost at: nat)
      requires Valid()
      modifies this, head, nodes
      ensures Valid()
      ensures removed <==> node in old(nodes)
      ensures removed ==> at < |old(nodes)| && old(nodes)[at] == node &&
                          nodes == WithoutIndex(old(nodes), at) &&
                          items == WithoutIndex(old(items), at)
      ensures !removed ==> nodes == old(nodes) && items == old(items)
    {
      var pre := head;
      at := 0;
      while pre.next != null && pre.next != node
        invariant 0 <= at <= |nodes| && pre == Before(at)
        invariant node !in nodes[..at]
        decreases |nodes| - at
      {
        pre := pre.next;
        at := at + 1;
      }
      assert pre.next == At(at);
      removed := pre.next != null;
      if removed {
        Unlink(pre, at);
      } else {
        assert nodes[..at] == nodes;
      }
    }

    /** Writes through the data pointer of a listed node. */
    method Store(node: Node, data: Rec, ghost at: nat)
      requires Valid() && at < |nodes| && nodes[at] == node
      modifies node, `items
      ensures Valid() && items == old(items)[at := data]
    {
      node.data := Some(data);
      items := items[at := data];
    }
  }
}
