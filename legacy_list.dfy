/**
 * The older doubly-linked list of list.c, at the root of the repository.
 *
 * It differs from the list of utils/list.c in keeping no `tail`: the list
 * object holds only `head` and `size`, positions are C `int`s (a negative
 * position names no node), `list_push` walks to the last node, and
 * `list_insert_at` finds the new head by rewinding `prev` links from the
 * node it inserted.  As there, the ghost `Spine` names the nodes reached
 * from `head` and `Contents` their values.
 */
module LegacyList {
  import opened Common

  class Node<V> {
    var value: V
    var prev: Node?<V>
    var next: Node?<V>

    /** A node as list_insert_at and list_push make it: zeroed, then given `v`. */
    constructor (v: V)
      ensures value == v && prev == null && next == null
    {
      value := v;
      prev := null;
      next := null;
    }
  }

  /** The nodes of `s` are pairwise distinct. */
  ghost predicate Distinct<V>(s: seq<Node<V>>)
  {
    forall i, j :: 0 <= i < j < |s| ==> s[i] != s[j]
  }

  /** Following `prev` links from any node of `s` leads back through `s` to its first node. */
  ghost predicate PrevLinked<V>(s: seq<Node<V>>)
    reads s
  {
    && (|s| > 0 ==> s[0].prev == null)
    && (forall i :: 0 < i < |s| ==> s[i].prev == s[i - 1])
  }

  /**
   * `s` is a chain of distinct nodes holding the values `c`: each node's
   * `next` is the following node, its `prev` the preceding one, and the
   * last node's `next` is NULL.
   */
  ghost predicate Chain<V>(s: seq<Node<V>>, c: seq<V>)
    reads s
  {
    && |c| == |s|
    && Distinct(s)
    && PrevLinked(s)
    && (forall i :: 0 <= i < |s| ==> s[i].value == c[i])
    && (forall i :: 0 <= i < |s| - 1 ==> s[i].next == s[i + 1])
    && (|s| > 0 ==> s[|s| - 1].next == null)
  }

  /**
   * list_rewind: follows `prev` links from `node` until a node with none.
   * On a chain whose `prev` links are intact that is the chain's first node.
   */
  method Rewind<V>(node: Node<V>, ghost s: seq<Node<V>>, ghost k: nat) returns (first: Node<V>)
    requires k < |s| && s[k] == node && PrevLinked(s)
    ensures first == s[0]
  {
    first := node;
    ghost var i: nat := k;
    while first.prev != null
      invariant i < |s| && first == s[i]
      invariant first.prev == if i > 0 then s[i - 1] else null
      decreases i
    {
      first := first.prev;
      i := i - 1;
    }
  }

  class List<V> {
    var head: Node?<V>
    var size: nat

    ghost var Spine: seq<Node<V>>
    ghost var Contents: seq<V>

    /** The chain from `head` visits `Spine`, with the values `Contents`. */
    ghost predicate Linked()
      reads this, Spine
    {
      Chain(Spine, Contents) && head == (if |Spine| == 0 then null else Spine[0])
    }

    /** The list invariant: the links agree and `size` counts the chain. */
    ghost predicate Valid()
      reads this, Spine
    {
      Linked() && size == |Spine|
    }

    /** list_init: the zeroed list. */
    constructor ()
      ensures Valid() && Contents == [] && Spine == [] && head == null && size == 0
    {
      head, size := null, 0;
      Spine, Contents := [], [];
    }

    /**
     * _list_at(lst->head, pos): walks `next` links from the head counting
     * from 0, and answers the node whose count equals `pos`, or NULL.
     */
    method At(pos: int) returns (p: Node?<V>)
      requires Linked()
      ensures p == if 0 <= pos < |Spine| then Spine[pos] else null
    {
      p := head;
      var i := 0;
      while p != null
        invariant 0 <= i <= |Spine| && (0 <= pos ==> i <= pos)
        invariant p == if i < |Spine| then Spine[i] else null
        decreases |Spine| - i
      {
        if i == pos {
          return;
        }
        p := p.next;
        i := i + 1;
      }
    }

    /**
     * list_insert_at: on an empty list the value becomes the only element,
     * whatever `pos` is.  On a non-empty list without a node at `pos` it
     * fails with -1 and changes nothing.  Otherwise the new node is linked
     * in front of the node at `pos`, and `head` is recomputed by rewinding
     * from the new node.
     */
    method InsertAt(v: V, pos: int) returns (r: int)
      requires Valid()
      modifies this, Spine
      ensures fresh(set n | n in Spine && n !in old(Spine))
      ensures Valid()
      ensures r == (if old(Spine) == [] || 0 <= pos < |old(Spine)| then 0 else -1)
      ensures old(Spine) == [] ==> Contents == [v]
      ensures old(Spine) != [] && 0 <= pos < |old(Spine)| ==> Contents == old(Contents)[..pos] + [v] + old(Contents)[pos..]
      ensures r == -1 ==> Contents == old(Contents) && Spine == old(Spine)
    {
      var existing := At(pos);
      if existing == null && head != null {
        return -1;
      }
      var node := new Node(v);
      if head == null {
        Commit(node, size + 1, [node], [v]);
        return 0;
      }
      assert existing.prev == if pos == 0 then null else Spine[pos - 1];
      InsertBefore(node, existing, pos);
      r := 0;
    }

    /** The non-empty case of list_insert_at: the fresh `node` is linked in
        front of `existing`, the node at `pos`, and `head` found by rewinding. */
    method InsertBefore(node: Node<V>, existing: Node<V>, ghost pos: nat)
      requires Valid() && pos < |Spine| && existing == Spine[pos] && node !in Spine
      modifies this, node, existing, existing.prev
      ensures Valid() && Contents == old(Contents)[..pos] + [old(node.value)] + old(Contents)[pos..]
      ensures Spine == old(Spine)[..pos] + [node] + old(Spine)[pos..]
    {
      ghost var s, c := Spine, Contents;
      LinkBefore(node, existing, s, c, pos);
      ghost var s', c' := s[..pos] + [node] + s[pos..], c[..pos] + [node.value] + c[pos..];
      var first := Rewind(node, s', pos);
      Commit(first, size + 1, s', c');
    }

    /** list_get_at: the value at `pos`, or NULL when no node is there. */
    method GetAt(pos: int) returns (r: Option<V>)
      requires Linked()
      ensures r == if 0 <= pos < |Contents| then Some(Contents[pos]) else None
    {
      var p := At(pos);
      if p == null {
        return None;
      }
      return Some(p.value);
    }

    /** list_shift: list_insert_at position 0, which prepends. */
    method Shift(v: V) returns (r: int)
      requires Valid()
      modifies this, Spine
      ensures fresh(set n | n in Spine && n !in old(Spine))
      ensures Valid() && r == 0 && Contents == [v] + old(Contents)
    {
      r := InsertAt(v, 0);
      assert old(Contents)[..0] == [] && old(Contents)[0..] == old(Contents);
    }

    /** list_unshift: NULL on an empty list; otherwise the first value, removed. */
    method Unshift() returns (r: Option<V>)
      requires Valid()
      modifies this, Spine
      ensures Valid()
      ensures r == if old(Contents) == [] then None else Some(old(Contents)[0])
      ensures Contents == if old(Contents) == [] then [] else old(Contents)[1..]
    {
      if head == null {
        return None;
      }
      r := Some(head.value);
      var _ := DelAt(0);
    }

    /** The walk of list_push: from `head` along `next` links to the node that has none. */
    method Last() returns (last: Node?<V>)
      requires Linked()
      ensures last == if Spine == [] then null else Spine[|Spine| - 1]
    {
      last := head;
      if last != null {
        ghost var i := 0;
        while last.next != null
          invariant i < |Spine| && last == Spine[i]
          invariant last.next == if i < |Spine| - 1 then Spine[i + 1] else null
          decreases |Spine| - i
        {
          last := last.next;
          i := i + 1;
        }
      }
    }

    /**
     * list_push: walks `next` links to the last node and links a new node
     * after it, or makes it the head of an empty list.
     */
    method Push(v: V) returns (r: int)
      requires Valid()
      modifies this, Spine
      ensures fresh(set n | n in Spine && n !in old(Spine))
      ensures Valid() && r == 0
      ensures Contents == old(Contents) + [v]
      ensures old(Spine) != [] ==> head == old(head)
    {
      var last := Last();
      var node := new Node(v);
      ghost var s, c := Spine, Contents;
      if last != null {
        LinkAfter(last, node, s, c);
        Commit(head, size + 1, s + [node], c + [v]);
      } else {
        Commit(node, size + 1, [node], [v]);
      }
      r := 0;
    }

    /** list_tail_node: NULL when `size` is 0, else the node at `size - 1`. */
    method TailNode() returns (t: Node?<V>)
      requires Valid()
      ensures t == if Spine == [] then null else Spine[|Spine| - 1]
    {
      if size == 0 {
        return null;
      }
      t := At(size - 1);
    }

    /** list_tail: the last value, or NULL when the list is empty. */
    method Tail() returns (r: Option<V>)
      requires Valid()
      ensures r == if Contents == [] then None else Some(Contents[|Contents| - 1])
    {
      var t := TailNode();
      if t == null {
        return None;
      }
      return Some(t.value);
    }

    /**
     * list_pop: NULL on an empty list; otherwise the last node is removed
     * with list_del_at and its value is returned (the source reads it from
     * the node after freeing it).
     */
    method Pop() returns (r: Option<V>)
      requires Valid()
      modifies this, Spine
      ensures Valid()
      ensures r == if old(Contents) == [] then None else Some(old(Contents)[|old(Contents)| - 1])
      ensures Contents == if old(Contents) == [] then [] else old(Contents)[..|old(Contents)| - 1]
    {
      var t := TailNode();
      if t == null {
        return None;
      }
      var _ := DelAt(size - 1);
      r := Some(t.value);
    }

    /**
     * list_del_at: -1 on an empty list or when no node is at `pos`;
     * otherwise the node is unlinked from its neighbours (or from `head`)
     * and `size` drops by one.
     */
    method DelAt(pos: int) returns (r: int)
      requires Valid()
      modifies this, Spine
      ensures fresh(set n | n in Spine && n !in old(Spine))
      ensures Valid()
      ensures r == (if 0 <= pos < |old(Contents)| then 0 else -1)
      ensures r == 0 ==> Contents == old(Contents)[..pos] + old(Contents)[pos + 1..]
      ensures r == 0 ==> Spine == old(Spine)[..pos] + old(Spine)[pos + 1..]
      ensures r == 0 ==> old(Spine)[pos].value == old(Contents)[pos]
      ensures r == -1 ==> Contents == old(Contents) && Spine == old(Spine)
    {
      if head == null {
        return -1;
      }
      var node := At(pos);
      if node == null {
        return -1;
      }
      assert node.prev == if pos == 0 then null else Spine[pos - 1];
      assert node.next == if pos == |Spine| - 1 then null else Spine[pos + 1];
      Remove(node, pos);
      r := 0;
    }

    /** The removal step of list_del_at: `node`, the node at `pos`, is
        unlinked, and `head` moves to its successor when it was the first. */
    method Remove(node: Node<V>, ghost pos: nat)
      requires Valid() && pos < |Spine| && node == Spine[pos]
      modifies this, node.prev, node.next
      ensures Valid()
      ensures Contents == old(Contents)[..pos] + old(Contents)[pos + 1..]
      ensures Spine == old(Spine)[..pos] + old(Spine)[pos + 1..]
      ensures node.value == old(Contents)[pos]
    {
      assert node.prev == if pos == 0 then null else Spine[pos - 1];
      assert node.next == if pos == |Spine| - 1 then null else Spine[pos + 1];
      ghost var s, c := Spine, Contents;
      var first := if node.prev == null then node.next else head;
      Unlink(node, s, c, pos);
      Commit(first, size - 1, s[..pos] + s[pos + 1..], c[..pos] + c[pos + 1..]);
    }

    /** Sets the list's own fields at once, after a relinking step. */
    method Commit(first: Node?<V>, n: nat, ghost s: seq<Node<V>>, ghost c: seq<V>)
      modifies this
      ensures head == first && size == n && Spine == s && Contents == c
    {
      head, size := first, n;
      Spine, Contents := s, c;
    }

    /**
     * list_iter: one callback per node, head to tail, with indices 0, 1,
     * 2, ...; `next` is read before each call, so the callback may free the
     * node.  The callback is modelled by the (node, index) pairs it gets.
     */
    method Iter() returns (calls: seq<(Node<V>, nat)>)
      requires Linked()
      ensures |calls| == |Spine|
      ensures forall i :: 0 <= i < |calls| ==> calls[i] == (Spine[i], i)
    {
      var p := head;
      var i := 0;
      calls := [];
      while p != null
        invariant 0 <= i <= |Spine| && |calls| == i
        invariant p == if i < |Spine| then Spine[i] else null
        invariant forall k :: 0 <= k < i ==> calls[k] == (Spine[k], k)
        decreases |Spine| - i
      {
        var following := p.next;
        calls := calls + [(p, i)];
        i := i + 1;
        p := following;
      }
    }

    /** list_destroy: every node is released through list_iter, then `size` is 0 and `head` NULL. */
    method Destroy() returns (r: int)
      requires Linked()
      modifies this
      ensures Valid() && r == 0 && head == null && size == 0 && Contents == []
    {
      var _ := Iter();
      head, size := null, 0;
      Spine, Contents := [], [];
      r := 0;
    }
  }

  /** The relinking step of list_insert_at: the fresh `node` goes between
      `existing`, the node at `pos` of the chain `s`, and its predecessor;
      `head` is left for the rewind. */
  method LinkBefore<V>(node: Node<V>, existing: Node<V>, ghost s: seq<Node<V>>, ghost c: seq<V>, ghost pos: nat)
    requires Chain(s, c) && pos < |s| && existing == s[pos] && node !in s
    modifies node, existing, existing.prev
    ensures Chain(s[..pos] + [node] + s[pos..], c[..pos] + [node.value] + c[pos..])
    ensures node.value == old(node.value)
  {
    var before := existing.prev;
    assert before == if pos == 0 then null else s[pos - 1];
    node.prev := before;
    node.next := existing;
    existing.prev := node;
    if before != null {
      before.next := node;
    }
    InsertionKeepsChain(s, c, node, pos);
  }

  /** The relinking step of list_del_at: the neighbours of `node`, the node
      at `pos` of the chain `s`, are joined around it; `head` is left to the
      caller. */
  method Unlink<V>(node: Node<V>, ghost s: seq<Node<V>>, ghost c: seq<V>, ghost pos: nat)
    requires Chain(s, c) && pos < |s| && node == s[pos]
    modifies node.prev, node.next
    ensures Chain(s[..pos] + s[pos + 1..], c[..pos] + c[pos + 1..])
    ensures node.value == old(node.value)
  {
    var before := node.prev;
    var after := node.next;
    assert before == if pos == 0 then null else s[pos - 1];
    assert after == if pos == |s| - 1 then null else s[pos + 1];
    if before != null {
      before.next := after;
    }
    if after != null {
      after.prev := before;
    }
    RemovalKeepsChain(s, c, pos);
  }

  /** The linking step of list_push: the fresh `node` goes after `last`, the
      last node of the chain `s`. */
  method LinkAfter<V>(last: Node<V>, node: Node<V>, ghost s: seq<Node<V>>, ghost c: seq<V>)
    requires Chain(s, c) && |s| > 0 && last == s[|s| - 1] && node !in s && node.next == null
    modifies last, node
    ensures Chain(s + [node], c + [node.value]) && node.value == old(node.value)
  {
    last.next := node;
    node.prev := last;
    AppendKeepsChain(s, c, node);
  }

  /**
   * Unlinking the node at `pos` of the chain `s` from its two neighbours
   * leaves a chain of the remaining nodes, when every other link is as it
   * was.
   */
  lemma RemovalKeepsChain<V>(s: seq<Node<V>>, c: seq<V>, pos: nat)
    requires Distinct(s) && |c| == |s| && pos < |s|
    requires forall i :: 0 <= i < |s| && i != pos ==> s[i].value == c[i]
    requires forall i :: 0 <= i < |s| - 1 && i != pos - 1 && i != pos ==> s[i].next == s[i + 1]
    requires forall i :: 0 < i < |s| && i != pos && i != pos + 1 ==> s[i].prev == s[i - 1]
    requires pos != 0 ==> s[0].prev == null
    requires pos != |s| - 1 ==> s[|s| - 1].next == null
    requires 0 < pos < |s| - 1 ==> s[pos - 1].next == s[pos + 1] && s[pos + 1].prev == s[pos - 1]
    requires 0 < pos == |s| - 1 ==> s[pos - 1].next == null
    requires 0 == pos < |s| - 1 ==> s[pos + 1].prev == null
    ensures Chain(s[..pos] + s[pos + 1..], c[..pos] + c[pos + 1..])
  {
    var t := s[..pos] + s[pos + 1..];
    assert forall k :: 0 <= k < |t| ==> t[k] == if k < pos then s[k] else s[k + 1];
  }

  /**
   * Linking a node that is not on the chain `s` in front of position `pos`
   * gives a chain with that node at `pos`, when every other link is as it
   * was.
   */
  lemma InsertionKeepsChain<V>(s: seq<Node<V>>, c: seq<V>, node: Node<V>, pos: nat)
    requires Distinct(s) && node !in s && |c| == |s| && pos < |s|
    requires forall i :: 0 <= i < |s| ==> s[i].value == c[i]
    requires forall i :: 0 <= i < |s| - 1 && i != pos - 1 ==> s[i].next == s[i + 1]
    requires forall i :: 0 < i < |s| && i != pos ==> s[i].prev == s[i - 1]
    requires pos != 0 ==> s[0].prev == null
    requires s[|s| - 1].next == null
    requires node.next == s[pos] && s[pos].prev == node
    requires pos != 0 ==> node.prev == s[pos - 1] && s[pos - 1].next == node
    requires pos == 0 ==> node.prev == null
    ensures Chain(s[..pos] + [node] + s[pos..], c[..pos] + [node.value] + c[pos..])
  {
    var t := s[..pos] + [node] + s[pos..];
    assert forall k :: 0 <= k < |t| ==> t[k] == if k < pos then s[k] else if k == pos then node else s[k - 1];
  }

  /**
   * Linking a node that is not on the non-empty chain `s` after its last
   * node gives a chain with that node at the end.
   */
  lemma AppendKeepsChain<V>(s: seq<Node<V>>, c: seq<V>, node: Node<V>)
    requires Distinct(s) && node !in s && |c| == |s| && |s| > 0
    requires forall i :: 0 <= i < |s| ==> s[i].value == c[i]
    requires forall i :: 0 <= i < |s| - 1 ==> s[i].next == s[i + 1]
    requires PrevLinked(s)
    requires s[|s| - 1].next == node && node.prev == s[|s| - 1] && node.next == null
    ensures Chain(s + [node], c + [node.value])
  {
    var t := s + [node];
    assert forall k :: 0 <= k < |s| ==> t[k] == s[k];
  }

  /**
   * The scenario of tests/list_test.c: "foo" and "bar" pushed, "spangle"
   * shifted in front, the head deleted and the last value popped.
   */
  method Scenario() returns (l: List<string>)
    ensures l.Valid() && l.Contents == ["foo"] && l.size == 1
  {
    l := new List();
    ScenarioPush(l);
    ScenarioShiftAndDelete(l);
    var _ := l.Pop();
  }

  /** Pushing "foo" and "bar" onto an empty list. */
  method ScenarioPush(l: List<string>)
    requires l.Valid() && l.Contents == []
    modifies l, l.Spine
    ensures l.Valid() && l.Contents == ["foo", "bar"] && l.size == 2
    ensures fresh(set n | n in l.Spine && n !in old(l.Spine))
  {
    var r := l.Push("foo");
    r := l.Push("bar");
  }

  /** Shifting "spangle" in front, then deleting it again at position 0. */
  method ScenarioShiftAndDelete(l: List<string>)
    requires l.Valid() && l.Contents == ["foo", "bar"]
    modifies l, l.Spine
    ensures l.Valid() && l.Contents == ["foo", "bar"] && l.size == 2
    ensures fresh(set n | n in l.Spine && n !in old(l.Spine))
  {
    var r := l.Shift("spangle");
    assert l.Contents == ["spangle", "foo", "bar"] && l.size == 3;
    r := l.DelAt(0);
    assert r == 0;
  }
}
