/**
 * The doubly-linked list of utils/list.c.
 *
 * Nodes are heap objects with `value`, `prev` and `next` fields, as in the
 * C `list_node`; the list object holds `head`, `tail` and `size`.  The ghost
 * sequence `Spine` names the nodes reached from `head` by `next` links and
 * `Contents` their values.  `Linked()` states that the link fields, `head`
 * and `tail` agree with that chain; `Valid()` adds that `size` counts it.
 *
 * Two operations of the source break that agreement, and are modelled as
 * written: `InsertAt` counts a node it never links in, and `PopHead` leaves
 * the new head's `prev` and, on a one-element list, `tail` pointing at the
 * freed node.  `InsertAtLinked` and `PopHeadRelinked` are the corrected
 * versions.
 */
module LinkedList {
  import opened Common

  class Node<V> {
    var value: V
    var prev: Node?<V>
    var next: Node?<V>

    /** make_node: a fresh node holding `v`, linked to nothing. */
    constructor (v: V)
      ensures value == v && prev == null && next == null
    {
      value := v;
      prev := null;
      next := null;
    }
  }

  class List<V> {
    var head: Node?<V>
    var tail: Node?<V>
    var size: nat

    ghost var Spine: seq<Node<V>>
    ghost var Contents: seq<V>

    /** The chain from `head` through `next` links visits `Spine`, the
        `prev` links mirror it, and `tail` is its last node. */
    ghost predicate Linked()
      reads this, Spine
    {
      && |Contents| == |Spine|
      && Distinct(Spine)
      && (forall i :: 0 <= i < |Spine| ==> Spine[i].value == Contents[i])
      && (forall i :: 0 <= i < |Spine| - 1 ==> Spine[i].next == Spine[i + 1])
      && (forall i :: 0 < i < |Spine| ==> Spine[i].prev == Spine[i - 1])
      && (|Spine| > 0 ==> Spine[0].prev == null && Spine[|Spine| - 1].next == null)
      && head == (if |Spine| == 0 then null else Spine[0])
      && tail == (if |Spine| == 0 then null else Spine[|Spine| - 1])
    }

    /** The list invariant: the links agree and `size` counts the chain. */
    ghost predicate Valid()
      reads this, Spine
    {
      Linked() && size == |Spine|
    }

    /** list_init */
    constructor ()
      ensures Valid() && Contents == [] && Spine == []
      ensures head == null && tail == null && size == 0
    {
      head, tail, size := null, null, 0;
      Spine, Contents := [], [];
    }

    /** find_node_at(lst->head, pos): walk `next` links from the head, counting. */
    method FindNodeAt(pos: nat) returns (p: Node?<V>)
      requires Linked()
      ensures p == if pos < |Spine| then Spine[pos] else null
    {
      p := head;
      var i := 0;
      while p != null
        invariant 0 <= i <= |Spine| && i <= pos
        invariant p == if i < |Spine| then Spine[i] else null
        decreases |Spine| - i
      {
        if i == pos {
          return;
        }
        p := p.next;
        i := i + 1;
      }
    }

    /**
     * list_insert_at, as written: when no node exists at `pos` it fails with
     * -1 and changes nothing.  Otherwise it allocates a node whose `prev` and
     * `next` point at the neighbours, but no neighbour is made to point back
     * at it, so the chain is unchanged while `size` still grows by one.
     * (The source's `head == NULL` and `next == NULL` branches cannot be taken
     * once a node was found at `pos`, so they are not written here.)
     */
    method InsertAt(v: V, pos: nat) returns (r: int, ghost orphan: Node?<V>)
      requires Linked()
      modifies this
      ensures r == (if pos < |old(Spine)| then 0 else -1)
      ensures Linked() && Spine == old(Spine) && Contents == old(Contents)
      ensures head == old(head) && tail == old(tail)
      ensures size == if r == 0 then old(size) + 1 else old(size)
      ensures r == 0 ==> orphan != null && fresh(orphan) && orphan !in Spine
      ensures r == 0 ==> orphan.value == v && orphan.next == Spine[pos] && orphan.prev == Spine[pos].prev
      ensures old(Valid()) && r == 0 ==> !Valid()
    {
      orphan := null;
      var existing := FindNodeAt(pos);
      if existing == null {
        r := -1;
        return;
      }
      var node := new Node(v);
      node.prev := existing.prev;
      node.next := existing;
      size := size + 1;
      orphan := node;
      r := 0;
    }

    /**
     * list_insert_at as evidently intended: the new node is linked between
     * `pos - 1` and `pos`, so the list reads `s[..pos] + [v] + s[pos..]`.
     */
    method InsertAtLinked(v: V, pos: nat) returns (r: int)
      requires Valid()
      modifies this, Spine
      ensures r == (if pos < |old(Contents)| then 0 else -1)
      ensures Valid()
      ensures r == 0 ==> Contents == old(Contents)[..pos] + [v] + old(Contents)[pos..]
      ensures r == -1 ==> Contents == old(Contents) && Spine == old(Spine)
    {
      var existing := FindNodeAt(pos);
      if existing == null {
        r := -1;
        return;
      }
      var node := new Node(v);
      assert existing.prev == if pos == 0 then null else Spine[pos - 1];
      ghost var s, c := Spine, Contents;
      LinkBefore(node, existing);
      size := size + 1;
      Spine := Spine[..pos] + [node] + Spine[pos..];
      Contents := Contents[..pos] + [v] + Contents[pos..];
      InsertionKeepsLinked(this, s, c, node, pos);
      r := 0;
    }

    /** The relinking step of the corrected list_insert_at: the fresh `node`
        goes between `existing` and its predecessor (or `head`). */
    method LinkBefore(node: Node<V>, existing: Node<V>)
      requires node != existing && node != existing.prev && existing != existing.prev
      modifies this, node, existing, existing.prev
      ensures node.prev == old(existing.prev) && node.next == existing && node.value == old(node.value)
      ensures existing.prev == node && existing.next == old(existing.next)
      ensures existing.value == old(existing.value)
      ensures old(existing.prev) != null ==>
                old(existing.prev).next == node && old(existing.prev).prev == old(existing.prev.prev)
                && old(existing.prev).value == old(existing.prev.value)
      ensures head == (if old(existing.prev) == null then node else old(head))
      ensures tail == old(tail) && size == old(size) && Spine == old(Spine) && Contents == old(Contents)
    {
      var before := existing.prev;
      node.prev := before;
      node.next := existing;
      existing.prev := node;
      if before != null {
        before.next := node;
      } else {
        head := node;
      }
    }

    /** list_get_at: the value at `pos`, or NULL past the end. */
    method GetAt(pos: nat) returns (r: Option<V>)
      requires Linked()
      ensures r == if pos < |Contents| then Some(Contents[pos]) else None
    {
      var p := FindNodeAt(pos);
      if p == null {
        return None;
      }
      return Some(p.value);
    }

    /**
     * list_del_at: -1 on an empty list or when no node exists at `pos`;
     * otherwise the node is unlinked from its neighbours (or from `head` /
     * `tail`), its own links are cleared, and `size` drops by one.
     */
    method DelAt(pos: nat) returns (r: int)
      requires Valid()
      modifies this, Spine
      ensures Valid()
      ensures r == (if pos < |old(Contents)| then 0 else -1)
      ensures r == 0 ==> Contents == old(Contents)[..pos] + old(Contents)[pos + 1..]
      ensures r == 0 ==> Spine == old(Spine)[..pos] + old(Spine)[pos + 1..]
      ensures r == 0 ==> old(Spine)[pos].prev == null && old(Spine)[pos].next == null
      ensures r == -1 ==> Contents == old(Contents) && Spine == old(Spine)
    {
      if head == null {
        return -1;
      }
      var node := FindNodeAt(pos);
      if node == null {
        return -1;
      }
      var before := node.prev;
      var after := node.next;
      assert before == if pos == 0 then null else Spine[pos - 1];
      assert after == if pos == |Spine| - 1 then null else Spine[pos + 1];
      ghost var s, c := Spine, Contents;
      Unlink(node);
      size := size - 1;
      Spine := Spine[..pos] + Spine[pos + 1..];
      Contents := Contents[..pos] + Contents[pos + 1..];
      RemovalKeepsLinked(this, s, c, pos);
      r := 0;
    }

    /** The relinking step of list_del_at: `node`'s neighbours (or `head` and
        `tail` in their place) are joined around it and its own links cleared. */
    method Unlink(node: Node<V>)
      requires node != node.prev && node != node.next
      requires node.prev != node.next || node.prev == null
      modifies this, node, node.prev, node.next
      ensures node.prev == null && node.next == null && node.value == old(node.value)
      ensures old(node.prev) != null ==>
                old(node.prev).next == old(node.next) && old(node.prev).prev == old(node.prev.prev)
                && old(node.prev).value == old(node.prev.value)
      ensures old(node.next) != null ==>
                old(node.next).prev == old(node.prev) && old(node.next).next == old(node.next.next)
                && old(node.next).value == old(node.next.value)
      ensures head == (if old(node.prev) == null then old(node.next) else old(head))
      ensures tail == (if old(node.next) == null then old(node.prev) else old(tail))
      ensures size == old(size) && Spine == old(Spine) && Contents == old(Contents)
    {
      var before := node.prev;
      var after := node.next;
      if before != null {
        before.next := after;
      } else {
        head := after;
      }
      if after != null {
        after.prev := before;
      } else {
        tail := before;
      }
      node.prev := null;
      node.next := null;
    }

    /** list_head: the first value, or NULL when empty. */
    method Head() returns (r: Option<V>)
      requires Linked()
      ensures r == if Contents == [] then None else Some(Contents[0])
    {
      if head == null {
        return None;
      }
      return Some(head.value);
    }

    /** list_tail: the last value, or NULL when empty. */
    method Tail() returns (r: Option<V>)
      requires Linked()
      ensures r == if Contents == [] then None else Some(Contents[|Contents| - 1])
    {
      if tail == null {
        return None;
      }
      return Some(tail.value);
    }

    /** list_push_head: prepend; `tail` is set only when the list was empty. */
    method PushHead(v: V) returns (r: int)
      requires Valid()
      modifies this, Spine
      ensures Valid() && r == 0
      ensures Contents == [v] + old(Contents)
      ensures head != null && fresh(head) && Spine == [head] + old(Spine)
      ensures old(Spine) != [] ==> tail == old(tail)
    {
      var oldHead := head;
      var node := new Node(v);
      if oldHead != null {
        head := node;
        node.next := oldHead;
        oldHead.prev := node;
      } else {
        head := node;
      }
      if node.next == null {
        tail := node;
      }
      size := size + 1;
      Spine := [node] + Spine;
      Contents := [v] + Contents;
      r := 0;
    }

    /**
     * list_pop_head, as written: NULL on an empty list; otherwise `head`
     * moves to the second node and `size` drops, but neither the new head's
     * `prev` nor `tail` is touched, so both can still point at the freed node.
     */
    method PopHead() returns (r: Option<V>)
      requires Valid()
      modifies this, Spine
      ensures old(Spine) == [] ==> r == None && Spine == [] && head == old(head) && tail == old(tail) && size == old(size)
      ensures old(Spine) != [] ==> r == Some(old(Contents)[0])
      ensures old(Spine) != [] ==> Spine == old(Spine)[1..] && Contents == old(Contents)[1..] && size == old(size) - 1
      ensures head == (if Spine == [] then null else Spine[0]) && tail == old(tail)
      ensures old(Spine) != [] ==> old(Spine)[0].next == null
      // the stale pointers left behind
      ensures |old(Spine)| == 1 ==> head == null && tail == old(Spine)[0]
      ensures |old(Spine)| >= 2 ==> Spine[0].prev == old(Spine)[0]
      ensures |old(Spine)| >= 1 ==> !Linked()
    {
      var node := head;
      if node == null {
        return None;
      }
      r := Some(node.value);
      head := node.next;
      node.next := null;
      size := size - 1;
      Spine := Spine[1..];
      Contents := Contents[1..];
    }

    /** list_pop_head as evidently intended: the new head's `prev` is cleared
        and `tail` is reset when the list becomes empty. */
    method PopHeadRelinked() returns (r: Option<V>)
      requires Valid()
      modifies this, Spine
      ensures Valid()
      ensures r == if old(Contents) == [] then None else Some(old(Contents)[0])
      ensures Contents == if old(Contents) == [] then [] else old(Contents)[1..]
    {
      var node := head;
      if node == null {
        return None;
      }
      r := Some(node.value);
      var after := node.next;
      assert after == if |Spine| == 1 then null else Spine[1];
      head := after;
      if after != null {
        after.prev := null;
      } else {
        tail := null;
      }
      node.next := null;
      size := size - 1;
      Spine := Spine[1..];
      Contents := Contents[1..];
    }

    /** list_push_tail: append; `head` is set only when the list was empty. */
    method PushTail(v: V) returns (r: int)
      requires Valid()
      modifies this, Spine
      ensures Valid() && r == 0
      ensures Contents == old(Contents) + [v]
      ensures tail != null && fresh(tail) && Spine == old(Spine) + [tail]
      ensures old(Spine) != [] ==> head == old(head)
    {
      var oldTail := tail;
      var node := new Node(v);
      if oldTail != null {
        oldTail.next := node;
        node.prev := oldTail;
      } else {
        head := node;
      }
      tail := node;
      size := size + 1;
      Spine := Spine + [node];
      Contents := Contents + [v];
      r := 0;
    }

    /** list_pop_tail: NULL when empty; otherwise the last value, with `head`
        and `tail` both NULL once the list is empty. */
    method PopTail() returns (r: Option<V>)
      requires Valid()
      modifies this, Spine
      ensures Valid()
      ensures r == if old(Contents) == [] then None else Some(old(Contents)[|old(Contents)| - 1])
      ensures Contents == if old(Contents) == [] then [] else old(Contents)[..|old(Contents)| - 1]
      ensures Contents == [] ==> head == null && tail == null
    {
      var node := tail;
      if node == null {
        return None;
      }
      var before := node.prev;
      assert before == if |Spine| == 1 then null else Spine[|Spine| - 2];
      tail := before;
      if before == null {
        head := null;
      } else {
        tail := before;
        before.next := null;
        node.prev := null;
      }
      r := Some(node.value);
      size := size - 1;
      Spine := Spine[..|Spine| - 1];
      Contents := Contents[..|Contents| - 1];
    }

    /**
     * list_iter: -1 on an empty list; otherwise one callback per node, head
     * to tail, with indices 0, 1, 2, ...  The `next` link is read before each
     * call, so a callback may free the node it is handed.  The callback is
     * modelled by the sequence of (node, index) pairs it receives.
     */
    method Iter() returns (r: int, calls: seq<(Node<V>, nat)>)
      requires Linked()
      ensures r == (if Spine == [] then -1 else 0)
      ensures |calls| == |Spine|
      ensures forall i :: 0 <= i < |calls| ==> calls[i] == (Spine[i], i)
    {
      var p := head;
      if p == null {
        return -1, [];
      }
      var i := 0;
      calls := [];
      while p != null
        invariant 0 <= i <= |Spine| && |calls| == i
        invariant p == if i < |Spine| then Spine[i] else null
        invariant forall k :: 0 <= k < i ==> calls[k] == (Spine[k], k)
        decreases |Spine| - i
      {
        var following := p.next;
        calls := calls + [(p, i)];
        i := i + 1;
        p := following;
      }
      r := 0;
    }

    /** list_destroy: every node is released and the list reads as empty. */
    method Destroy() returns (r: int)
      requires Linked()
      modifies this
      ensures Valid() && r == 0
      ensures head == null && tail == null && size == 0 && Contents == []
    {
      var _, _ := Iter();
      head, tail, size := null, null, 0;
      Spine, Contents := [], [];
      r := 0;
    }
  }

  /** The nodes of `s` are pairwise distinct. */
  ghost predicate Distinct<V>(s: seq<Node<V>>)
  {
    forall i, j :: 0 <= i < j < |s| ==> s[i] != s[j]
  }

  /**
   * Unlinking the node at `pos` of the chain `s` from its two neighbours,
   * and dropping it from `Spine`, leaves `l` linked, when every other link
   * of the chain is as it was.
   */
  lemma RemovalKeepsLinked<V>(l: List<V>, s: seq<Node<V>>, c: seq<V>, pos: nat)
    requires Distinct(s) && |c| == |s| && pos < |s|
    requires l.Spine == s[..pos] + s[pos + 1..] && l.Contents == c[..pos] + c[pos + 1..]
    requires forall i :: 0 <= i < |s| && i != pos ==> s[i].value == c[i]
    requires forall i :: 0 <= i < |s| - 1 && i != pos - 1 && i != pos ==> s[i].next == s[i + 1]
    requires forall i :: 0 < i < |s| && i != pos && i != pos + 1 ==> s[i].prev == s[i - 1]
    requires pos != 0 ==> s[0].prev == null
    requires pos != |s| - 1 ==> s[|s| - 1].next == null
    requires 0 < pos < |s| - 1 ==> s[pos - 1].next == s[pos + 1] && s[pos + 1].prev == s[pos - 1]
    requires 0 < pos == |s| - 1 ==> s[pos - 1].next == null
    requires 0 == pos < |s| - 1 ==> s[pos + 1].prev == null
    requires l.head == (if |l.Spine| == 0 then null else l.Spine[0])
    requires l.tail == (if |l.Spine| == 0 then null else l.Spine[|l.Spine| - 1])
    ensures l.Linked()
  {
    assert forall k :: 0 <= k < |l.Spine| ==> l.Spine[k] == if k < pos then s[k] else s[k + 1];
  }

  /**
   * Linking a node that is not on the chain `s` in front of position `pos`,
   * and adding it to `Spine` there, leaves `l` linked, when every other link
   * of the chain is as it was.
   */
  lemma InsertionKeepsLinked<V>(l: List<V>, s: seq<Node<V>>, c: seq<V>, node: Node<V>, pos: nat)
    requires Distinct(s) && node !in s && |c| == |s| && pos < |s|
    requires l.Spine == s[..pos] + [node] + s[pos..] && l.Contents == c[..pos] + [node.value] + c[pos..]
    requires forall i :: 0 <= i < |s| ==> s[i].value == c[i]
    requires forall i :: 0 <= i < |s| - 1 && i != pos - 1 ==> s[i].next == s[i + 1]
    requires forall i :: 0 < i < |s| && i != pos ==> s[i].prev == s[i - 1]
    requires pos != 0 ==> s[0].prev == null
    requires s[|s| - 1].next == null
    requires node.next == s[pos] && s[pos].prev == node
    requires pos != 0 ==> node.prev == s[pos - 1] && s[pos - 1].next == node
    requires pos == 0 ==> node.prev == null
    requires l.head == l.Spine[0] && l.tail == l.Spine[|l.Spine| - 1]
    ensures l.Linked()
  {
    assert forall k :: 0 <= k < |l.Spine| ==>
      l.Spine[k] == if k < pos then s[k] else if k == pos then node else s[k - 1];
  }

  /** A scenario of the list_pop_head defect: after pushing one value and
      popping it, `head` is NULL while `tail` still names the freed node. */
  method PopHeadLeavesStaleTail() returns (l: List<int>)
    ensures l.head == null && l.tail != null && l.size == 0
  {
    l := new List();
    var _ := l.PushTail(7);
    var _ := l.PopHead();
  }

  /** A scenario of the list_insert_at defect: inserting at position 0 of a
      one-element list reports success and counts two nodes, but the chain
      from `head` still holds the single original value. */
  method InsertAtLeavesNodeUnlinked() returns (l: List<int>)
    ensures l.size == 2 && l.Linked() && l.Contents == [7]
  {
    l := new List();
    var _ := l.PushTail(7);
    var r, _ := l.InsertAt(8, 0);
    assert r == 0;
  }
}
