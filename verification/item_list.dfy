/** The item list as a doubly linked ring with a head node (amavutils/itemlist.c, amavutils/include/list.h).
    The locked body of each operation is one method. */
module ItemList {
  import opened Items
  import opened Wrappers

  class Node {
    var prev: Node?
    var next: Node?
    const data: nat
    const ext: Addr
    ghost var owner: List? // the list it is linked into

    constructor (data: nat, ext: Addr)
      ensures this.data == data && this.ext == ext && owner == null
    {
      prev, next, owner := null, null, null;
      this.data := data;
      this.ext := ext;
    }
  }

  /** Each node is linked to the next one both ways, and the last one to the first. */
  ghost predicate Linked(ring: seq<Node>)
    reads ring
  {
    && |ring| > 0
    && (forall i, j :: 0 <= i < j < |ring| ==> ring[i] != ring[j])
    && (forall i :: 0 <= i < |ring| - 1 ==> ring[i].next == ring[i + 1])
    && (forall i :: 0 < i < |ring| ==> ring[i].prev == ring[i - 1])
    && ring[|ring| - 1].next == ring[0] && ring[0].prev == ring[|ring| - 1]
  }

  /** `list_add_tail(node, head)`. */
  method LinkTail(node: Node, head: Node, ghost ring: seq<Node>) returns (ghost longer: seq<Node>)
    requires Linked(ring) && ring[0] == head && node !in ring
    modifies ring, node
    ensures longer == ring + [node] && Linked(longer)
    ensures forall n :: n in longer ==> n.owner == old(n.owner)
  {
    longer := ring + [node];
    var last := head.prev;
    head.prev := node;
    node.next := head;
    node.prev := last;
    last.next := node;
  }

  /** `list_del(node)`, where `node` is `ring[k]` and not the head. */
  method Unlink(node: Node, ghost ring: seq<Node>, ghost k: nat) returns (ghost shorter: seq<Node>)
    requires Linked(ring) && 0 < k < |ring| && ring[k] == node
    modifies ring
    ensures shorter == ring[..k] + ring[k + 1..] && Linked(shorter) && node !in shorter
    ensures forall n :: n in ring ==> n.owner == old(n.owner)
  {
    shorter := ring[..k] + ring[k + 1..];
    assert ring[k].next == ring[if k + 1 < |ring| then k + 1 else 0] && ring[k].prev == ring[k - 1];
    node.next.prev := node.prev;
    node.prev.next := node.next;
    node.next, node.prev := null, null;
  }

  /** The items of a ring, its head left out. */
  ghost function ItemsOf(ring: seq<Node>): (items: seq<Item>)
    requires |ring| > 0
    ensures |items| == |ring| - 1
  {
    seq(|ring| - 1, i requires 0 <= i < |ring| - 1 => Item(ring[i + 1].data, ring[i + 1].ext))
  }

  lemma ItemsOfLonger(ring: seq<Node>, node: Node)
    requires |ring| > 0
    ensures ItemsOf(ring + [node]) == ItemsOf(ring) + [Item(node.data, node.ext)]
  {
  }

  lemma ItemsOfShorter(ring: seq<Node>, k: nat)
    requires 0 < k < |ring|
    ensures ItemsOf(ring[..k] + ring[k + 1..]) == ItemsOf(ring)[..k - 1] + ItemsOf(ring)[k..]
  {
  }

  twostate lemma StaysValid(m: List)
    requires old(m.Valid()) && unchanged(m) && forall n :: n in old(m.ring) ==> unchanged(n)
    ensures m.Valid() && m.ring == old(m.ring)
  {
    var ring := m.ring;
    forall i | 0 <= i < |ring|
      ensures unchanged(ring[i])
    {
      assert ring[i] in ring;
    }
  }

  class List {
    const head: Node
    var itemCount: nat
    var maxItems: nat // 0 is no limit
    const rejectSame: bool
    ghost var ring: seq<Node>

    ghost predicate Valid()
      reads this, ring
    {
      && Linked(ring) && ring[0] == head && itemCount == |ring| - 1
      && forall n :: n in ring ==> n.owner == this
    }

    ghost function Contents(): seq<Item>
      reads this`ring
    {
      if ring == [] then [] else ItemsOf(ring)
    }

    constructor (maxItems: nat, rejectSame: bool)
      ensures Valid() && Contents() == [] && fresh(ring)
      ensures this.maxItems == maxItems && this.rejectSame == rejectSame
    {
      head := new Node(0, 0);
      this.maxItems, this.rejectSame, itemCount := maxItems, rejectSame, 0;
      new;
      head.next, head.prev, head.owner := head, head, this;
      ring := [head];
    }

    method AddTail(node: Node, ghost others: set<List>) returns (ret: int)
      requires this !in others && forall m :: m in others ==> m.Valid()
      requires Valid() && node.owner == null
      modifies this, ring, node
      ensures Valid() && maxItems == old(maxItems)
      ensures forall m :: m in others ==> m.Valid() && m.ring == old(m.ring)
      ensures ret == if maxItems > 0 && maxItems <= |old(Contents())| then -1 else 0
      ensures ret == -1 ==> ring == old(ring) && Contents() == old(Contents())
      ensures ret == 0 ==> ring == old(ring) + [node] && Contents() == old(Contents()) + [Item(node.data, node.ext)]
    {
      if maxItems > 0 && maxItems <= itemCount {
        return -1;
      }
      ItemsOfLonger(ring, node);
      assert forall m, n :: m in others && n in m.ring ==> n !in ring && n != node;
      Link(node);
      forall m | m in others
        ensures m.Valid() && m.ring == old(m.ring)
      {
        StaysValid(m);
      }
      return 0;
    }

    method Link(node: Node)
      requires Valid() && node.owner == null
      modifies this`ring, this`itemCount, ring, node
      ensures Valid() && ring == old(ring) + [node]
    {
      ring := LinkTail(node, head, ring);
      node.owner := this;
      itemCount := itemCount + 1;
    }

    lemma EmptyIff()
      requires Valid()
      ensures head.next == head <==> |ring| == 1
      ensures |ring| > 1 ==> head.next == ring[1]
    {
    }

    /** The item of the node at `k`, and the node after it. */
    lemma ItemAt(k: nat)
      requires Valid() && 0 < k < |ring|
      ensures Contents()[k - 1] == Item(ring[k].data, ring[k].ext) && Contents()[k - 1] in Contents()
      ensures ring[k] != head && ring[k].next == if k + 1 < |ring| then ring[k + 1] else head
    {
    }

    /** `itemlist_get_head`. */
    method GetHead() returns (node: Node?)
      requires Valid()
      modifies this, ring
      ensures Valid()
      ensures node == null <==> old(Contents()) == []
      ensures node == null ==> Contents() == old(Contents())
      ensures node != null ==> Item(node.data, node.ext) == old(Contents())[0] && Contents() == old(Contents())[1..]
    {
      node := null;
      EmptyIff();
      if head.next != head {
        node := head.next;
        Delete(node, 1, {});
      }
    }

    /** `itemlist_get_tail`. */
    method GetTail() returns (node: Node?)
      requires Valid()
      modifies this, ring
      ensures Valid()
      ensures node == null <==> old(Contents()) == []
      ensures node == null ==> Contents() == old(Contents())
      ensures node != null ==> var n := |old(Contents())| - 1;
                               Item(node.data, node.ext) == old(Contents())[n] && Contents() == old(Contents())[..n]
    {
      node := null;
      EmptyIff();
      if head.next != head {
        node := head.prev;
        Delete(node, |ring| - 1, {});
      }
    }

    /** `itemlist_del_item_locked` on the node at `k`. */
    method Delete(node: Node, ghost k: nat, ghost others: set<List>)
      requires this !in others && forall m :: m in others ==> m.Valid()
      requires Valid() && 0 < k < |ring| && ring[k] == node
      modifies this`ring, this`itemCount, ring
      ensures Valid() && ring == old(ring)[..k] + old(ring)[k + 1..]
      ensures forall m :: m in others ==> m.Valid() && m.ring == old(m.ring)
      ensures node.owner == null && forall n :: n in ring ==> n in old(ring)
      ensures Contents() == old(Contents())[..k - 1] + old(Contents())[k..]
    {
      ItemsOfShorter(ring, k);
      assert forall m, n :: m in others && n in m.ring ==> n !in ring;
      TakeOut(node, k);
      forall m | m in others
        ensures m.Valid() && m.ring == old(m.ring)
      {
        StaysValid(m);
      }
    }

    method TakeOut(node: Node, ghost k: nat)
      requires Valid() && 0 < k < |ring| && ring[k] == node
      modifies this`ring, this`itemCount, ring
      ensures Valid() && ring == old(ring)[..k] + old(ring)[k + 1..] && node.owner == null
    {
      ring := Unlink(node, ring, k);
      node.owner := null;
      itemCount := itemCount - 1;
    }

    /** `itemlist_find_match_item`; `k` is where it was found. */
    method FindMatch(data: nat) returns (node: Node?, ghost k: nat)
      requires Valid()
      ensures Find(Contents(), data) == if node == null then None else Some(node.ext)
      ensures node == null ==> forall it :: it in Contents() ==> it.data != data
      ensures node != null ==> 0 < k < |ring| && ring[k] == node && node.data == data
      ensures Remove(Contents(), data)
              == if node == null then Contents() else Contents()[..k - 1] + Contents()[k..]
    {
      node, k := head.next, 1;
      while node != head
        invariant 1 <= k <= |ring| && node == if k < |ring| then ring[k] else head
        invariant forall i :: 0 <= i < k - 1 ==> Contents()[i].data != data
        decreases |ring| - k
      {
        if node.data == data {
          FirstMatch(Contents(), data, k - 1);
          return;
        }
        assert ring[k].next == if k + 1 < |ring| then ring[k + 1] else ring[0];
        node := node.next;
        k := k + 1;
      }
      FirstMatch(Contents(), data, |ring| - 1);
      node := null;
    }

    /** `itemlist_get_match_item`. */
    method GetMatch(data: nat, ghost others: set<List>) returns (node: Node?)
      requires this !in others && forall m :: m in others ==> m.Valid()
      requires Valid()
      modifies this`ring, this`itemCount, ring
      ensures Valid() && Contents() == Remove(old(Contents()), data)
      ensures forall m :: m in others ==> m.Valid() && m.ring == old(m.ring)
      ensures forall n :: n in ring ==> n in old(ring)
      ensures Find(old(Contents()), data) == if node == null then None else Some(node.ext)
    {
      ghost var k;
      node, k := FindMatch(data);
      if node != null {
        Delete(node, k, others);
      }
    }

    /** `itemlist_add_tail_data_ext` with one extra word. `others` may be any lists. */
    method AddTailData(data: nat, ext: Addr, mallocOk: bool, ghost others: set<List>) returns (ret: int)
      requires this !in others && forall m :: m in others ==> m.Valid()
      requires Valid()
      modifies this, ring
      ensures Valid() && maxItems == old(maxItems)
      ensures forall m :: m in others ==> m.Valid() && m.ring == old(m.ring)
      ensures forall n :: n in ring ==> n in old(ring) || fresh(n)
      ensures var known := rejectSame && Find(old(Contents()), data).Some?;
              var full := maxItems > 0 && maxItems <= |old(Contents())|;
              && ret == (if known then 0 else if !mallocOk then -12 else if full then -1 else 0)
              && Contents() == if known || !mallocOk || full then old(Contents())
                               else old(Contents()) + [Item(data, ext)]
    {
      if rejectSame {
        var found, _ := FindMatch(data);
        if found != null {
          return 0;
        }
      }
      if !mallocOk {
        return -12;
      }
      var node := new Node(data, ext);
      ret := AddTail(node, others);
    }

    /** `itemlist_clean`. */
    method Clean()
      requires Valid()
      modifies this, ring
      ensures Valid() && Contents() == []
    {
      EmptyIff();
      while head.next != head
        invariant Valid() && forall i :: 0 <= i < |ring| ==> ring[i] in old(ring)
        invariant head.next == head <==> |ring| == 1
        decreases |ring|
      {
        EmptyIff();
        Delete(head.next, 1, {});
        EmptyIff();
      }
    }
  }
}
