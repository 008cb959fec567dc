/** Singly linked lists whose nodes carry a name, as list.c and hash.c use them. */
module Chain {
  import opened Ircaux

  class Node<T> {
    var next: Node?<T>
    var name: CString
    var data: T

    constructor (name: CString, data: T)
      ensures this.name == name && this.data == data && next == null
    {
      this.next, this.name, this.data := null, name, data;
    }
  }

  predicate Distinct<X(==)>(xs: seq<X>) {
    forall i, j :: 0 <= i < j < |xs| ==> xs[i] != xs[j]
  }

  /** The i-th node, or null past the end. */
  function NodeAt<T>(nodes: seq<Node<T>>, i: nat): Node?<T>
  {
    if i < |nodes| then nodes[i] else null
  }

  /** Following `next` from head passes exactly these nodes, each once. */
  ghost predicate IsChain<T>(head: Node?<T>, nodes: seq<Node<T>>)
    reads nodes`next
  {
    && head == NodeAt(nodes, 0)
    && (forall i {:trigger nodes[i].next} :: 0 <= i < |nodes| ==> nodes[i].next == NodeAt(nodes, i + 1))
    && Distinct(nodes)
  }

  /** The names that the nodes carry, in order. */
  ghost predicate Named<T>(nodes: seq<Node<T>>, names: seq<string>)
    reads nodes`name
  {
    |names| == |nodes| && forall i :: 0 <= i < |nodes| ==> nodes[i].name == names[i]
  }

  /** The first n elements, or all if there are fewer. */
  function UpTo<X>(xs: seq<X>, n: nat): (ys: seq<X>)
    ensures ys <= xs && |ys| == if |xs| <= n then |xs| else n
  {
    if |xs| <= n then xs else xs[..n]
  }

  function Without<X>(xs: seq<X>, k: nat): (ys: seq<X>)
    requires k < |xs|
    ensures |ys| == |xs| - 1 && forall i :: 0 <= i < |ys| ==> ys[i] == xs[if i < k then i else i + 1]
  {
    xs[..k] + xs[k + 1..]
  }

  /** xs with its k-th element moved to the front. */
  function ToFront<X>(xs: seq<X>, k: nat): (ys: seq<X>)
    requires k < |xs|
    ensures |ys| == |xs| && forall i :: 0 <= i < |ys| ==> ys[i] == xs[if i == 0 then k else if i <= k then i - 1 else i]
  {
    [xs[k]] + xs[..k] + xs[k + 1..]
  }

  function Insert<X>(xs: seq<X>, k: nat, x: X): (ys: seq<X>)
    requires k <= |xs|
    ensures |ys| == |xs| + 1 && forall i :: 0 <= i < |ys| ==> ys[i] == if i < k then xs[i] else if i == k then x else xs[i - 1]
  {
    xs[..k] + [x] + xs[k..]
  }

  /** The link changes of inserting `add` before the k-th node. */
  lemma Inserted<T>(head: Node?<T>, nodes: seq<Node<T>>, k: nat, add: Node<T>)
    requires k <= |nodes| && Distinct(nodes) && add !in nodes && add.next == NodeAt(nodes, k)
    requires head == if k == 0 then add else nodes[0]
    requires forall i {:trigger nodes[i].next} :: 0 <= i < |nodes| ==> nodes[i].next == if i + 1 == k then add else NodeAt(nodes, i + 1)
    ensures IsChain(head, Insert(nodes, k, add))
  {
    var ys := Insert(nodes, k, add);
    forall i {:trigger ys[i].next} | 0 <= i < |ys| ensures ys[i].next == NodeAt(ys, i + 1) {
      if i < k { assert nodes[i] == ys[i]; } else if i > k { assert nodes[i - 1] == ys[i]; }
    }
  }

  /** The link changes of removing the k-th node; its own next field no longer matters. */
  lemma Removed<T>(head: Node?<T>, nodes: seq<Node<T>>, k: nat)
    requires k < |nodes| && Distinct(nodes)
    requires head == NodeAt(nodes, if k == 0 then 1 else 0)
    requires forall i {:trigger nodes[i].next} :: 0 <= i < |nodes| && i != k ==>
      nodes[i].next == NodeAt(nodes, if i + 1 == k then i + 2 else i + 1)
    ensures IsChain(head, Without(nodes, k))
  {
    var ys := Without(nodes, k);
    forall i {:trigger ys[i].next} | 0 <= i < |ys| ensures ys[i].next == NodeAt(ys, i + 1) {
      if i < k { assert nodes[i] == ys[i]; } else { assert nodes[i + 1] == ys[i]; }
    }
  }

  /** The link changes of moving the k-th node to the top. */
  lemma Moved<T>(head: Node?<T>, nodes: seq<Node<T>>, k: nat)
    requires 0 < k < |nodes| && Distinct(nodes) && head == nodes[k]
    requires forall i {:trigger nodes[i].next} :: 0 <= i < |nodes| ==>
      nodes[i].next == NodeAt(nodes, if i == k then 0 else if i + 1 == k then k + 1 else i + 1)
    ensures IsChain(head, ToFront(nodes, k))
  {
    var ys := ToFront(nodes, k);
    forall i {:trigger ys[i].next} | 0 <= i < |ys| ensures ys[i].next == NodeAt(ys, i + 1) {
      if i == 0 { assert nodes[k] == ys[i]; } else if i <= k { assert nodes[i - 1] == ys[i]; } else { assert nodes[i] == ys[i]; }
    }
  }
}
