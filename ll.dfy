/**
 * The singly-linked list of ll.c, run by one thread at a time. Every
 * per-node and list-wide reader-writer lock is dropped: in a sequential run
 * each lock and unlock is a no-op.
 */
module LL {
  import opened Wrappers
  import opened ListSpec

  /** One cell of the chain: a value and the link to its successor. */
  class Node<T> {
    // set once by ll_new_node and never reassigned
    const val: T
    var nxt: Node?<T>

    /** ll_new_node: a detached node holding `val`. */
    constructor (val: T)
      ensures this.val == val && nxt == null
    {
      this.val := val;
      nxt := null;
    }
  }

  /**
   * Following `nxt` from the first of `nodes` visits each of them once, in
   * order, and then reaches null; the values met on the way are `contents`.
   */
  ghost predicate Chain<T>(nodes: seq<Node<T>>, contents: seq<T>)
    reads Elems(nodes)
  {
    Distinct(nodes) && |nodes| == |contents| &&
    (forall i {:trigger nodes[i]} :: 0 <= i < |nodes| ==> nodes[i].val == contents[i]) &&
    (forall i :: 0 <= i < |nodes| - 1 ==> nodes[i].nxt == nodes[i + 1]) &&
    (nodes != [] ==> nodes[|nodes| - 1].nxt == null)
  }

  /**
   * The list handle. `hd` and `len` are the handle's own fields; the ghost
   * fields give its abstract view:
   *  - Contents: the values from head to tail;
   *  - Nodes: the chain of nodes reachable from `hd`, in order;
   *  - Repr: the set of nodes the list owns (a freed node leaves it);
   *  - Released: every value handed to the teardown callback so far, in order.
   */
  class LinkedList<T> {
    var hd: Node?<T>
    var len: int
    ghost var Contents: seq<T>
    ghost var Nodes: seq<Node<T>>
    ghost var Repr: set<Node<T>>
    ghost var Released: seq<T>

    /** `hd` starts the chain of Nodes holding Contents, and `len` counts its nodes. */
    ghost predicate Valid()
      reads this, Repr
    {
      Repr == Elems(Nodes) && Chain(Nodes, Contents) && len == |Contents| &&
      hd == (if Nodes == [] then null else Nodes[0])
    }

    /**
     * The node reached from `hd` by following `nxt` `k` times, null once the
     * walk has left the chain. The walk meets the nodes of the chain in order
     * and reaches null after exactly `len` steps: `len` counts the nodes
     * reachable from `hd`.
     */
    ghost function Walk(k: nat): (r: Node?<T>)
      requires Valid()
      reads this, Repr
      ensures r == (if k < |Nodes| then Nodes[k] else null)
      ensures r == null <==> k >= len
      decreases k
    {
      if k == 0 then hd
      else
        var p := Walk(k - 1);
        if p == null then null else p.nxt
    }

    /**
     * A fresh node linked in at index `n` (behind the node at index n - 1,
     * or in front of the head when n == 0), with no other link touched and
     * the ghost fields updated to match, leaves a valid list.
     */
    twostate lemma SpliceKeepsValid(new n: nat, new node: Node<T>)
      requires old(Valid()) && n <= |old(Nodes)|
      requires fresh(node) && node.nxt == (if n < |old(Nodes)| then old(Nodes)[n] else null)
      requires n > 0 ==> old(Nodes)[n - 1].nxt == node
      requires unchanged(old(Repr) - (if n > 0 then {old(Nodes)[n - 1]} else {}))
      requires Nodes == InsertAt(old(Nodes), n, node) && Contents == InsertAt(old(Contents), n, node.val)
      requires Repr == old(Repr) + {node} && len == old(len) + 1
      requires hd == (if n == 0 then node else old(hd))
      ensures Valid()
    {
      var ns := old(Nodes);
      var kept := old(Repr) - (if n > 0 then {ns[n - 1]} else {});
      assert node !in ns;
      DistinctInsert(ns, n, node);
      ElemsOfInsert(ns, n, node);
      forall j | 0 <= j < |Nodes| - 1 ensures Nodes[j].nxt == Nodes[j + 1] {
        if j < n - 1 {
          assert Nodes[j] == ns[j] && Nodes[j] in kept;
        } else if j > n {
          assert Nodes[j] == ns[j - 1] && Nodes[j] in kept;
        }
      }
      if n < |ns| {
        var last := ns[|ns| - 1];
        assert Nodes[|Nodes| - 1] == last && last in kept;
      }
    }

    /**
     * The node at index `n` unlinked (by relinking the node at index n - 1
     * past it, or by moving the head when n == 0), with no other link
     * touched and the ghost fields updated to match, leaves a valid list.
     */
    twostate lemma UnlinkKeepsValid(new n: nat)
      requires old(Valid()) && n < |old(Nodes)|
      requires n > 0 ==> old(Nodes)[n - 1].nxt == old(Nodes[n].nxt)
      requires unchanged(old(Repr) - (if n > 0 then {old(Nodes)[n - 1]} else {}))
      requires Nodes == RemoveAt(old(Nodes), n) && Contents == RemoveAt(old(Contents), n)
      requires Repr == old(Repr) - {old(Nodes)[n]} && len == old(len) - 1
      requires hd == (if n == 0 then old(Nodes[0].nxt) else old(hd))
      ensures Valid()
    {
      var ns := old(Nodes);
      var kept := old(Repr) - (if n > 0 then {ns[n - 1]} else {});
      DistinctRemove(ns, n);
      ElemsOfRemove(ns, n);
      forall j | 0 <= j < |Nodes| - 1 ensures Nodes[j].nxt == Nodes[j + 1] {
        if j < n - 1 {
          assert Nodes[j] == ns[j] && Nodes[j] in kept;
        } else if j >= n {
          assert Nodes[j] == ns[j + 1] && Nodes[j] in kept;
        }
      }
      if Nodes != [] {
        if n < |ns| - 1 {
          var last := ns[|ns| - 1];
          assert Nodes[|Nodes| - 1] == last && last in kept;
        } else {
          assert Nodes[|Nodes| - 1] == ns[n - 1];
        }
      }
    }

    /** ll_new: an empty list. */
    constructor ()
      ensures Valid() && fresh(Repr)
      ensures hd == null && len == 0 && Contents == [] && Released == []
    {
      hd := null;
      len := 0;
      Contents, Nodes, Repr := [], [], {};
      Released := [];
    }

    /**
     * ll_select_n: walks to the node just before index `n`. Index 0 has no
     * predecessor and succeeds without walking (the node is null then);
     * index 1 yields the head, which is null on an empty list.
     */
    method SelectN(n: int) returns (rc: int, node: Node?<T>)
      requires Valid()
      ensures rc == 0 || rc == -1
      ensures rc == 0 <==> 0 <= n && (n <= 1 || n <= len)
      ensures rc == 0 && n == 0 ==> node == null
      ensures rc == 0 && 1 <= n <= len ==> node == Nodes[n - 1]
      ensures rc == 0 && n == 1 && len == 0 ==> node == null
    {
      if n < 0 {
        return -1, null;
      }
      if n == 0 {
        return 0, null;
      }
      node := hd;
      var k := n - 1;
      ghost var i := 0;
      while k > 0
        invariant 0 <= k <= n - 1 && i == n - 1 - k
        invariant i <= |Nodes| && (i > 0 ==> i < |Nodes|)
        invariant node == if i < |Nodes| then Nodes[i] else null
      {
        var last := node;
        if last == null {
          return -1, null;
        }
        node := last.nxt;
        assert node == if i + 1 < |Nodes| then Nodes[i + 1] else null;
        if node == null {
          return -1, null;
        }
        k := k - 1;
        i := i + 1;
      }
      return 0, node;
    }

    /**
     * The splice of ll_insert_n for index 0: a fresh node holding `v` links
     * to the old head and becomes the head; the length grows by one.
     */
    method SpliceFront(v: T) returns (rc: int)
      requires Valid()
      modifies this
      ensures Valid() && fresh(Repr - old(Repr))
      ensures Released == old(Released)
      ensures rc == len == old(len) + 1 && Contents == [v] + old(Contents)
    {
      var node := new Node(v);
      node.nxt := hd;
      hd := node;
      len := len + 1;
      Contents, Nodes, Repr := InsertAt(Contents, 0, v), InsertAt(Nodes, 0, node), Repr + {node};
      SpliceKeepsValid(0, node);
      rc := len;
    }

    /**
     * The splice of ll_insert_n for an index `n > 0`: a fresh node holding
     * `v` is linked in behind `prev`, the node at index n - 1; the length
     * grows by one.
     */
    method SpliceAfter(v: T, prev: Node<T>, ghost n: nat) returns (rc: int)
      requires Valid()
      requires 0 < n <= len && prev == Nodes[n - 1]
      modifies this, prev
      ensures Valid() && fresh(Repr - old(Repr))
      ensures Released == old(Released)
      ensures rc == len == old(len) + 1 && Contents == InsertAt(old(Contents), n, v)
    {
      var node := new Node(v);
      node.nxt := prev.nxt;
      prev.nxt := node;
      len := len + 1;
      Contents, Nodes, Repr := InsertAt(Contents, n, v), InsertAt(Nodes, n, node), Repr + {node};
      SpliceKeepsValid(n, node);
      rc := len;
    }

    /**
     * ll_insert_n: puts `v` at index `n` and returns the new length, or
     * returns -1 and changes nothing when `n` is negative or beyond the end.
     * That includes n == 1 on an empty list, which ll_select_n lets through
     * and the last branch turns down.
     */
    method InsertN(v: T, n: int) returns (rc: int)
      requires Valid()
      modifies this, Repr
      ensures Valid() && fresh(Repr - old(Repr))
      ensures Released == old(Released)
      ensures 0 <= n <= old(len) ==>
        rc == len == old(len) + 1 && Contents == InsertAt(old(Contents), n, v)
      ensures !(0 <= n <= old(len)) ==> rc == -1 && unchanged(this) && unchanged(Repr)
    {
      var found, nth := SelectN(n);
      if found != 0 {
        return -1;
      }
      if n == 0 {
        rc := SpliceFront(v);
      } else if len > 0 {
        rc := SpliceAfter(v, nth, n);
      } else {
        // n == 1 on an empty list: the new node is freed again and the call fails
        rc := -1;
      }
    }

    /** ll_insert_first: puts `v` in front of the head. */
    method InsertFirst(v: T) returns (rc: int)
      requires Valid()
      modifies this, Repr
      ensures Valid() && fresh(Repr - old(Repr))
      ensures Released == old(Released)
      ensures rc == len == old(len) + 1 && Contents == [v] + old(Contents)
    {
      rc := InsertN(v, 0);
      assert Contents == [v] + old(Contents);
    }

    /** ll_insert_last: puts `v` after the tail, at index `len`. */
    method InsertLast(v: T) returns (rc: int)
      requires Valid()
      modifies this, Repr
      ensures Valid() && fresh(Repr - old(Repr))
      ensures Released == old(Released)
      ensures rc == len == old(len) + 1 && Contents == old(Contents) + [v]
    {
      rc := InsertN(v, len);
      assert Contents == old(Contents) + [v];
    }

    /**
     * ll_remove_n: unlinks the node at index `n`, hands its value to the
     * teardown callback and returns the new length, or returns -1 and changes
     * nothing when `n` is negative or beyond the end. The C code dereferences
     * NULL or an unset pointer when `n == len`, and for n == 1 on an empty
     * list.
     */
    method RemoveN(n: int) returns (rc: int)
      requires Valid()
      requires n != len && !(n == 1 && len == 0)
      modifies this, Repr
      ensures Valid()
      ensures 0 <= n < old(len) ==>
        rc == len == old(len) - 1 &&
        Contents == RemoveAt(old(Contents), n) &&
        Released == old(Released) + [old(Contents)[n]] &&
        Repr == old(Repr) - {old(Nodes)[n]}
      ensures !(0 <= n < old(len)) ==> rc == -1 && unchanged(this) && unchanged(Repr)
    {
      var found, nth := SelectN(n);
      if found != 0 {
        return -1;
      }
      var tmp: Node?<T>;
      if n == 0 && len > 0 {
        tmp := hd;
        hd := tmp.nxt;
      } else {
        assert nth == Nodes[n - 1] && nth.nxt == Nodes[n];
        tmp := nth.nxt;
        nth.nxt := if nth.nxt == null then null else nth.nxt.nxt;
      }
      len := len - 1;
      Released := Released + [tmp.val];
      Contents, Nodes, Repr := RemoveAt(Contents, n), RemoveAt(Nodes, n), Repr - {tmp};
      UnlinkKeepsValid(n);
      rc := len;
    }

    /** ll_remove_first: removes the head; the C code needs a non-empty list. */
    method RemoveFirst() returns (rc: int)
      requires Valid()
      requires len > 0
      modifies this, Repr
      ensures Valid()
      ensures rc == len == old(len) - 1 && Contents == old(Contents)[1..]
      ensures Released == old(Released) + [old(Contents)[0]]
      ensures Repr == old(Repr) - {old(Nodes)[0]}
    {
      rc := RemoveN(0);
    }

    /**
     * ll_remove_search: unlinks the first node whose value satisfies `cond`,
     * hands that value to the teardown callback and returns the new length;
     * returns -1 and changes nothing when no value matches.
     */
    method RemoveSearch(cond: T -> bool) returns (rc: int)
      requires Valid()
      modifies this, Repr
      ensures Valid()
      ensures var k := FirstMatch(old(Contents), cond);
        if k < |old(Contents)| then
          rc == len == old(len) - 1 &&
          Contents == RemoveAt(old(Contents), k) &&
          Released == old(Released) + [old(Contents)[k]] &&
          Repr == old(Repr) - {old(Nodes)[k]}
        else
          rc == -1 && unchanged(this) && unchanged(Repr)
    {
      var last: Node?<T> := null;
      var node := hd;
      ghost var i := 0;
      while node != null && !cond(node.val)
        invariant 0 <= i <= |Nodes|
        invariant node == if i < |Nodes| then Nodes[i] else null
        invariant last == if i == 0 then null else Nodes[i - 1]
        invariant forall j :: 0 <= j < i ==> !cond(Contents[j])
        decreases |Nodes| - i
      {
        last := node;
        node := node.nxt;
        i := i + 1;
      }
      assert i == FirstMatch(Contents, cond);
      if node == null {
        return -1;
      } else if node == hd {
        hd := node.nxt;
      } else {
        last.nxt := node.nxt;
      }
      Released := Released + [node.val];
      len := len - 1;
      Contents, Nodes, Repr := RemoveAt(Contents, i), RemoveAt(Nodes, i), Repr - {node};
      UnlinkKeepsValid(i);
      rc := len;
    }

    /**
     * ll_get_n: the value at index `n`, or None (the C NULL) when `n` is
     * beyond the end or below -1. The C code dereferences an unset pointer
     * for n == -1 and the NULL head for n == 0 on an empty list.
     */
    method GetN(n: int) returns (r: Option<T>)
      requires Valid()
      requires n != -1 && !(n == 0 && len == 0)
      ensures 0 <= n < len ==> r == Some(Contents[n])
      ensures !(0 <= n < len) ==> r == None
    {
      var found, node := SelectN(n + 1);
      if found != 0 {
        return None;
      }
      return Some(node.val);
    }

    /** ll_get_first: the head's value; the C code needs a non-empty list. */
    method GetFirst() returns (r: Option<T>)
      requires Valid()
      requires len > 0
      ensures r == Some(Contents[0])
    {
      r := GetN(0);
    }

    /**
     * ll_map: calls `f` on every value from head to tail. The callback's
     * effect is a step `f` on an external state, starting from `st0`; the
     * result is the state after the last call. The list is not changed.
     */
    method Map<S>(f: (S, T) -> S, st0: S) returns (st: S)
      requires Valid()
      ensures st == Fold(f, st0, Contents)
    {
      var node := hd;
      st := st0;
      ghost var i := 0;
      while node != null
        invariant 0 <= i <= |Nodes|
        invariant node == if i < |Nodes| then Nodes[i] else null
        invariant st == Fold(f, st0, Contents[..i])
        decreases |Nodes| - i
      {
        FoldSnoc(f, st0, Contents[..i], node.val);
        assert Contents[..i + 1] == Contents[..i] + [node.val];
        st := f(st, node.val);
        node := node.nxt;
        i := i + 1;
      }
      assert Contents[..i] == Contents;
    }

    /**
     * ll_delete: hands every value to the teardown callback from head to
     * tail, counting `len` down once per node, and leaves no node behind.
     */
    method Delete()
      requires Valid()
      modifies this
      ensures Valid()
      ensures hd == null && len == 0 && Contents == [] && Repr == {}
      ensures Released == old(Released) + old(Contents)
    {
      var node := hd;
      ghost var i := 0;
      while node != null
        invariant Contents == old(Contents) && Nodes == old(Nodes) && Chain(Nodes, Contents)
        invariant 0 <= i <= |Nodes| && len == |Nodes| - i
        invariant node == if i < |Nodes| then Nodes[i] else null
        invariant Released == old(Released) + Contents[..i]
        decreases |Nodes| - i
      {
        assert Contents[..i + 1] == Contents[..i] + [node.val];
        Released := Released + [node.val];
        node := node.nxt;
        len := len - 1;
        i := i + 1;
      }
      assert Contents[..i] == Contents;
      hd := null;
      Contents, Nodes, Repr := [], [], {};
    }
  }
}
