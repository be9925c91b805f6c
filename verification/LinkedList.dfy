/** Singly linked lists edited in place through the link that leads to a node.
    The spine is the list of nodes from the head on; what a client sees are the
    values they hold. */
module LinkedList {

  class Node<T> {
    var next: Node?<T>
    var val: T

    constructor (val: T)
      ensures this.val == val && next == null
    {
      this.val := val;
      this.next := null;
    }
  }

  function Nth<T>(ns: seq<Node<T>>, i: nat): Node?<T>
  {
    if i < |ns| then ns[i] else null
  }

  ghost predicate Distinct<T>(ns: seq<Node<T>>)
  {
    forall i, j | 0 <= i < j < |ns| :: ns[i] != ns[j]
  }

  ghost predicate Chained<T>(ns: seq<Node<T>>)
    reads ns
  {
    forall i | 0 <= i < |ns| :: ns[i].next == Nth(ns, i + 1)
  }

  ghost function ValsOf<T>(ns: seq<Node<T>>): (l: seq<T>)
    reads ns
    ensures |l| == |ns|
  {
    seq(|ns|, i requires 0 <= i < |ns| reads ns => ns[i].val)
  }

  class List<T> {
    var head: Node?<T>
    ghost var spine: seq<Node<T>>

    ghost predicate Valid()
      reads this, spine
    {
      Distinct(spine) && Chained(spine) && head == Nth(spine, 0)
    }

    ghost function Vals(): (l: seq<T>)
      reads this, spine
      ensures |l| == |spine|
    {
      ValsOf(spine)
    }

    constructor ()
      ensures Valid() && spine == []
    {
      head := null;
      spine := [];
    }

    /** node->next = *link; *link = node, where link is the head or prev's next. */
    method InsertAt(prev: Node?<T>, node: Node<T>, ghost i: nat)
      requires Valid() && i <= |spine| && node !in spine
      requires prev == if i == 0 then null else spine[i - 1]
      modifies this, spine`next, node`next
      ensures Valid()
      ensures spine == old(spine)[..i] + [node] + old(spine)[i..]
      ensures forall n | n in spine :: n in old(spine) || n == node
      ensures Vals() == old(Vals())[..i] + [old(node.val)] + old(Vals())[i..]
    {
      hide Distinct, Chained, ValsOf;
      ghost var ns, l := spine, Vals();
      NextOfPrev(ns, head, prev, i);
      Exposed(ns, prev, i);
      assert forall j | 0 <= j < |ns| && j != i - 1 :: ns[j].next == Nth(ns, j + 1);
      if prev == null {
        node.next := head;
        head := node;
      } else {
        node.next := prev.next;
        prev.next := node;
      }
      spine := ns[..i] + [node] + ns[i..];
      Inserted(ns, i, node, l);
    }

    /** Overwrites the value held by node i. */
    method Store(cur: Node<T>, val: T, ghost i: nat)
      requires Valid() && i < |spine| && cur == spine[i]
      modifies cur`val
      ensures Valid()
      ensures Vals() == old(Vals())[i := val] && cur.val == val
    {
      ghost var l := Vals();
      assert forall j | 0 <= j < |spine| && j != i :: spine[j] != cur;
      cur.val := val;
      assert Vals() == l[i := val];
    }

    /** *link = cur->next. */
    method RemoveAt(prev: Node?<T>, cur: Node<T>, ghost i: nat)
      requires Valid() && i < |spine| && cur == spine[i]
      requires prev == if i == 0 then null else spine[i - 1]
      modifies this, spine`next
      ensures Valid()
      ensures spine == old(spine)[..i] + old(spine)[i + 1..]
      ensures Vals() == old(Vals())[..i] + old(Vals())[i + 1..]
      ensures cur !in spine && forall n | n in spine :: n in old(spine)
    {
      hide Distinct, Chained, ValsOf;
      ghost var ns, l := spine, Vals();
      NextOfNode(ns, i);
      Exposed(ns, prev, i);
      if prev == null {
        head := cur.next;
      } else {
        prev.next := cur.next;
      }
      spine := ns[..i] + ns[i + 1..];
      Removed(ns, i, l);
    }
  }

  lemma NextOfPrev<T>(ns: seq<Node<T>>, head: Node?<T>, prev: Node?<T>, i: nat)
    requires Chained(ns) && i <= |ns| && head == Nth(ns, 0)
    requires prev == if i == 0 then null else ns[i - 1]
    ensures prev == null ==> head == Nth(ns, i)
    ensures prev != null ==> prev in ns && prev.next == Nth(ns, i)
  {
  }

  lemma NextOfNode<T>(ns: seq<Node<T>>, i: nat)
    requires Chained(ns) && i < |ns|
    ensures ns[i].next == Nth(ns, i + 1)
    ensures i > 0 ==> ns[i - 1].next == ns[i]
  {
  }

  /** What an edit of the link before node i leaves as it was. */
  lemma Exposed<T>(ns: seq<Node<T>>, prev: Node?<T>, i: nat)
    requires Distinct(ns) && Chained(ns) && i <= |ns|
    requires prev == if i == 0 then null else ns[i - 1]
    ensures forall j | 0 <= j < |ns| && j != i - 1 :: ns[j] != prev && ns[j].next == Nth(ns, j + 1)
    ensures forall j | 0 <= j < |ns| :: ns[j].val == ValsOf(ns)[j]
  {
  }

  lemma Inserted<T>(ns: seq<Node<T>>, i: nat, node: Node<T>, l: seq<T>)
    requires i <= |ns| == |l| && node !in ns && Distinct(ns)
    requires forall j | 0 <= j < |ns| && j != i - 1 :: ns[j].next == Nth(ns, j + 1)
    requires forall j | 0 <= j < |ns| :: ns[j].val == l[j]
    requires node.next == Nth(ns, i)
    requires i > 0 ==> ns[i - 1].next == node
    ensures var sp := ns[..i] + [node] + ns[i..];
            Distinct(sp) && Chained(sp) && ValsOf(sp) == l[..i] + [node.val] + l[i..]
  {
    hide Distinct;
    var sp := ns[..i] + [node] + ns[i..];
    InsertedDistinct(ns, i, node);
    forall j | 0 <= j < |sp| ensures sp[j].next == Nth(sp, j + 1) {
      if j < i {
        assert sp[j] == ns[j];
      } else if j > i {
        assert sp[j] == ns[j - 1];
      }
    }
    assert ValsOf(sp) == l[..i] + [node.val] + l[i..];
  }

  lemma InsertedDistinct<T>(ns: seq<Node<T>>, i: nat, node: Node<T>)
    requires i <= |ns| && node !in ns && Distinct(ns)
    ensures Distinct(ns[..i] + [node] + ns[i..])
  {
    var sp := ns[..i] + [node] + ns[i..];
    forall a, b | 0 <= a < b < |sp| ensures sp[a] != sp[b] {
      assert a == i || sp[a] == ns[if a < i then a else a - 1];
      assert b == i || sp[b] == ns[if b < i then b else b - 1];
    }
  }

  lemma Removed<T>(ns: seq<Node<T>>, i: nat, l: seq<T>)
    requires i < |ns| == |l| && Distinct(ns)
    requires forall j | 0 <= j < |ns| && j != i - 1 :: ns[j].next == Nth(ns, j + 1)
    requires forall j | 0 <= j < |ns| :: ns[j].val == l[j]
    requires i > 0 ==> ns[i - 1].next == Nth(ns, i + 1)
    ensures var sp := ns[..i] + ns[i + 1..];
            Distinct(sp) && Chained(sp) && ns[i] !in sp && ValsOf(sp) == l[..i] + l[i + 1..]
  {
    hide Distinct;
    var sp := ns[..i] + ns[i + 1..];
    RemovedDistinct(ns, i);
    forall j | 0 <= j < |sp| ensures sp[j].next == Nth(sp, j + 1) && sp[j].val == (l[..i] + l[i + 1..])[j] {
      if j < i {
        assert sp[j] == ns[j];
      } else {
        assert sp[j] == ns[j + 1];
      }
    }
  }

  lemma RemovedDistinct<T>(ns: seq<Node<T>>, i: nat)
    requires i < |ns| && Distinct(ns)
    ensures Distinct(ns[..i] + ns[i + 1..]) && ns[i] !in ns[..i] + ns[i + 1..]
  {
    var sp := ns[..i] + ns[i + 1..];
    forall a, b | 0 <= a < b < |sp| ensures sp[a] != sp[b] {
      assert sp[a] == ns[if a < i then a else a + 1];
      assert sp[b] == ns[if b < i then b else b + 1];
    }
  }
}
