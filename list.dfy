/**
 * The doubly linked list of list.go: nodes with prev/next pointers, a head, a
 * tail and a length, searched with the list's equality function. The ghost
 * sequence `nodes` is the list from head to tail; `Valid` ties every pointer
 * and the length to it.
 */
module List {
  import opened Obj

  class ListNode {
    /** A node's value is set when it is created and never reassigned. */
    const val: RedisObj
    var next: ListNode?
    var prev: ListNode?

    constructor (v: RedisObj)
      ensures val == v && next == null && prev == null
    {
      val := v;
      next := null;
      prev := null;
    }
  }

  /** Position of the first value that matches v under eq, or |vals| when none does. */
  function FirstMatch(vals: seq<RedisObj>, v: RedisObj, eq: (RedisObj, RedisObj) -> bool): (k: nat)
    ensures k <= |vals|
    ensures forall i | 0 <= i < k :: !eq(vals[i], v)
    ensures k < |vals| ==> eq(vals[k], v)
  {
    if vals == [] then 0
    else if eq(vals[0], v) then 0
    else 1 + FirstMatch(vals[1..], v, eq)
  }

  /** A value that equals itself is found no later than where it sits. */
  lemma {:induction false} MemberFound(vals: seq<RedisObj>, i: nat, eq: (RedisObj, RedisObj) -> bool)
    requires i < |vals| && eq(vals[i], vals[i])
    ensures FirstMatch(vals, vals[i], eq) <= i
  {
    if i > 0 && !eq(vals[0], vals[i]) {
      MemberFound(vals[1..], i - 1, eq);
    }
  }

  /** No node occurs twice. */
  ghost predicate Distinct(ns: seq<ListNode>)
  {
    forall i, j | 0 <= i < j < |ns| :: ns[i] != ns[j]
  }

  /** The values of a run of nodes. */
  ghost function ValsOf(ns: seq<ListNode>): (vs: seq<RedisObj>)
    ensures |vs| == |ns| && forall i | 0 <= i < |ns| :: vs[i] == ns[i].val
  {
    seq(|ns|, i requires 0 <= i < |ns| => ns[i].val)
  }

  /**
   * Cutting the node at k out keeps the rest distinct and within the same
   * objects, and cuts its value out of the values.
   */
  lemma RemoveNode(ns: seq<ListNode>, k: nat, repr: set<object>)
    requires k < |ns| && Distinct(ns)
    requires forall i | 0 <= i < |ns| :: ns[i] in repr
    ensures Distinct(ns[..k] + ns[k + 1..])
    ensures forall x | x in ns[..k] + ns[k + 1..] :: x in repr
    ensures ValsOf(ns[..k] + ns[k + 1..]) == ValsOf(ns)[..k] + ValsOf(ns)[k + 1..]
  {
    var r := ns[..k] + ns[k + 1..];
    forall i, j | 0 <= i < j < |r|
      ensures r[i] != r[j]
    {
      var i' := if i < k then i else i + 1;
      var j' := if j < k then j else j + 1;
      assert r[i] == ns[i'] && r[j] == ns[j'];
    }
    forall i | 0 <= i < |r|
      ensures r[i] in repr && ValsOf(r)[i] == (ValsOf(ns)[..k] + ValsOf(ns)[k + 1..])[i]
    {
      var i' := if i < k then i else i + 1;
      assert r[i] == ns[i'];
    }
  }

  class List {
    const equalFunc: (RedisObj, RedisObj) -> bool
    var head: ListNode?
    var tail: ListNode?
    var length: int
    /** The nodes from head to tail. */
    ghost var nodes: seq<ListNode>
    ghost var Repr: set<object>

    ghost predicate Valid()
      reads this, Repr
    {
      && this in Repr
      && (forall i | 0 <= i < |nodes| :: nodes[i] in Repr)
      && length == |nodes|
      && (nodes == [] ==> head == null && tail == null)
      && (nodes != [] ==> head == nodes[0] && tail == nodes[|nodes| - 1])
      && (nodes != [] ==> nodes[0].prev == null && nodes[|nodes| - 1].next == null)
      && (forall i | 0 < i < |nodes| :: nodes[i].prev == nodes[i - 1])
      && (forall i | 0 <= i < |nodes| - 1 :: nodes[i].next == nodes[i + 1])
      && Distinct(nodes)
    }

    /** The values from head to tail. */
    ghost function Vals(): (vs: seq<RedisObj>)
      reads this
      ensures |vs| == |nodes| && forall i | 0 <= i < |nodes| :: vs[i] == nodes[i].val
    {
      ValsOf(nodes)
    }

    /** ListCreate: an empty list using the given equality function. */
    constructor ListCreate(eq: (RedisObj, RedisObj) -> bool)
      ensures Valid() && fresh(Repr)
      ensures equalFunc == eq && nodes == [] && Vals() == []
    {
      equalFunc := eq;
      head := null;
      tail := null;
      length := 0;
      nodes := [];
      Repr := {this};
    }

    /** The stored length is the number of nodes reachable from head. */
    function ListLength(): (n: int)
      reads this, Repr
      requires Valid()
      ensures n == |Vals()|
    {
      length
    }

    /** The first node, nil on an empty list. */
    function ListFirst(): (n: ListNode?)
      reads this, Repr
      requires Valid()
      ensures n == null <==> Vals() == []
      ensures n != null ==> n == nodes[0] && n.val == Vals()[0]
    {
      head
    }

    /** The last node, nil on an empty list. */
    function ListLast(): (n: ListNode?)
      reads this, Repr
      requires Valid()
      ensures n == null <==> Vals() == []
      ensures n != null ==> n == nodes[|nodes| - 1] && n.val == Vals()[|nodes| - 1]
    {
      tail
    }

    /** The first node from the head whose value matches v, or nil when none matches. */
    method ListSearchKey(v: RedisObj) returns (p: ListNode?)
      requires Valid()
      ensures var k := FirstMatch(Vals(), v, equalFunc);
        p == (if k < |nodes| then nodes[k] else null)
    {
      p := head;
      ghost var i := 0;
      while p != null
        invariant 0 <= i <= |nodes|
        invariant p == (if i < |nodes| then nodes[i] else null)
        invariant forall j | 0 <= j < i :: !equalFunc(nodes[j].val, v)
        decreases |nodes| - i
      {
        if equalFunc(p.val, v) {
          break;
        }
        assert p.next == (if i + 1 < |nodes| then nodes[i + 1] else null);
        p := p.next;
        i := i + 1;
      }
    }

    /** Prepends v; on an empty list the new node is both head and tail. */
    method ListAddNodeHead(v: RedisObj)
      requires Valid()
      modifies Repr
      ensures Valid() && fresh(Repr - old(Repr))
      ensures Vals() == [v] + old(Vals())
      ensures length == old(length) + 1
      ensures nodes[1..] == old(nodes)
    {
      var node := new ListNode(v);
      if length == 0 {
        head := node;
        tail := node;
      } else {
        node.next := head;
        head.prev := node;
        head := node;
      }
      length := length + 1;
      Repr := Repr + {node};
      Prepended(node, nodes);
    }

    /** Re-establishes Valid once node has been linked in front of ns. */
    ghost method Prepended(node: ListNode, ns: seq<ListNode>)
      requires Distinct(ns) && node !in ns
      requires this in Repr && node in Repr && forall i | 0 <= i < |ns| :: ns[i] in Repr
      requires length == |ns| + 1 && head == node && node.prev == null
      requires ns == [] ==> tail == node && node.next == null
      requires ns != [] ==> tail == ns[|ns| - 1] && ns[|ns| - 1].next == null
      requires ns != [] ==> node.next == ns[0] && ns[0].prev == node
      requires forall i | 0 < i < |ns| :: ns[i].prev == ns[i - 1]
      requires forall i | 0 <= i < |ns| - 1 :: ns[i].next == ns[i + 1]
      modifies this
      ensures Valid() && nodes == [node] + ns && Repr == old(Repr)
    {
      nodes := [node] + ns;
      forall i | 1 <= i < |nodes| - 1
        ensures nodes[i].next == nodes[i + 1]
      {
        assert nodes[i] == ns[i - 1] && nodes[i + 1] == ns[i];
      }
      forall i | 1 < i < |nodes|
        ensures nodes[i].prev == nodes[i - 1]
      {
        assert nodes[i] == ns[i - 1] && nodes[i - 1] == ns[i - 2];
      }
      forall i, j | 0 <= i < j < |nodes|
        ensures nodes[i] != nodes[j]
      {
        assert nodes[j] == ns[j - 1];
        if i > 0 {
          assert nodes[i] == ns[i - 1];
        }
      }
    }

    /** Appends v; nothing else changes. */
    method ListAddNodeTail(v: RedisObj)
      requires Valid()
      modifies Repr
      ensures Valid() && fresh(Repr - old(Repr))
      ensures Vals() == old(Vals()) + [v]
      ensures length == old(length) + 1
      ensures nodes[..|nodes| - 1] == old(nodes)
    {
      var node := new ListNode(v);
      if length == 0 {
        head := node;
        tail := node;
      } else {
        node.prev := tail;
        tail.next := node;
        tail := node;
      }
      length := length + 1;
      Repr := Repr + {node};
      Appended(nodes, node);
    }

    /** Re-establishes Valid once node has been linked behind ns. */
    ghost method Appended(ns: seq<ListNode>, node: ListNode)
      requires Distinct(ns) && node !in ns
      requires this in Repr && node in Repr && forall i | 0 <= i < |ns| :: ns[i] in Repr
      requires length == |ns| + 1 && tail == node && node.next == null
      requires ns == [] ==> head == node && node.prev == null
      requires ns != [] ==> head == ns[0] && ns[0].prev == null
      requires ns != [] ==> node.prev == ns[|ns| - 1] && ns[|ns| - 1].next == node
      requires forall i | 0 < i < |ns| :: ns[i].prev == ns[i - 1]
      requires forall i | 0 <= i < |ns| - 1 :: ns[i].next == ns[i + 1]
      modifies this
      ensures Valid() && nodes == ns + [node] && Repr == old(Repr)
    {
      nodes := ns + [node];
      forall i | 0 <= i < |nodes| - 2
        ensures nodes[i].next == nodes[i + 1]
      {
        assert nodes[i] == ns[i] && nodes[i + 1] == ns[i + 1];
      }
      forall i | 0 < i < |nodes| - 1
        ensures nodes[i].prev == nodes[i - 1]
      {
        assert nodes[i] == ns[i] && nodes[i - 1] == ns[i - 1];
      }
      forall i, j | 0 <= i < j < |nodes|
        ensures nodes[i] != nodes[j]
      {
        assert nodes[i] == ns[i];
        if j < |ns| {
          assert nodes[j] == ns[j];
        }
      }
    }

    /**
     * Unlinks the first node whose value matches v. The source dereferences a
     * nil node when none matches, so a match is required.
     */
    method ListDelKey(v: RedisObj)
      requires Valid()
      requires FirstMatch(Vals(), v, equalFunc) < |nodes|
      modifies Repr
      ensures Valid() && Repr == old(Repr)
      ensures var k := FirstMatch(old(Vals()), v, equalFunc);
        && nodes == old(nodes[..k] + nodes[k + 1..])
        && Vals() == old(Vals()[..k] + Vals()[k + 1..])
        && old(nodes[k]).next == null && old(nodes[k]).prev == null
      ensures length == old(length) - 1
    {
      ghost var k := FirstMatch(Vals(), v, equalFunc);
      RemoveNode(nodes, k, Repr);
      var p := ListSearchKey(v);
      Unlink(p, k);
    }

    /**
     * ListDelKey once the node at position k is found: its pointers are cut
     * out of the chain, and the count drops by one.
     */
    method Unlink(p: ListNode, ghost k: nat)
      requires Valid() && k < |nodes| && p == nodes[k]
      modifies Repr
      ensures Valid() && Repr == old(Repr) && length == old(length) - 1
      ensures nodes == old(nodes[..k] + nodes[k + 1..])
      ensures p.next == null && p.prev == null
    {
      ghost var ns := nodes;
      Splice(p, k, ns);
      length := length - 1;
      DropNode(k, ns);
    }

    /**
     * Re-establishes Valid once the pointers around position k of ns no
     * longer reach the node there and the count has dropped.
     */
    ghost method DropNode(k: nat, ns: seq<ListNode>)
      requires k < |ns| && Distinct(ns)
      requires this in Repr && forall i | 0 <= i < |ns| :: ns[i] in Repr
      requires length == |ns| - 1
      requires head == (if k > 0 then ns[0] else if |ns| > 1 then ns[1] else null)
      requires tail == (if k < |ns| - 1 then ns[|ns| - 1] else if k > 0 then ns[k - 1] else null)
      requires k > 0 ==> ns[0].prev == null
      requires k < |ns| - 1 ==> ns[|ns| - 1].next == null
      requires forall i | 0 < i < |ns| && i != k && i != k + 1 :: ns[i].prev == ns[i - 1]
      requires k + 1 < |ns| ==> ns[k + 1].prev == (if k > 0 then ns[k - 1] else null)
      requires forall i | 0 <= i < |ns| - 1 && i != k - 1 && i != k :: ns[i].next == ns[i + 1]
      requires k > 0 ==> ns[k - 1].next == (if k + 1 < |ns| then ns[k + 1] else null)
      modifies this
      ensures Valid() && nodes == ns[..k] + ns[k + 1..] && Repr == old(Repr)
    {
      RemoveNode(ns, k, Repr);
      nodes := ns[..k] + ns[k + 1..];
      assert nodes != [] ==> nodes[0] == (if k > 0 then ns[0] else ns[1]);
      assert nodes != [] ==> nodes[|nodes| - 1] == (if k < |ns| - 1 then ns[|ns| - 1] else ns[k - 1]);
      forall i | 0 < i < |nodes|
        ensures nodes[i].prev == nodes[i - 1]
      {
        if i < k {
          assert nodes[i] == ns[i] && nodes[i - 1] == ns[i - 1];
        } else if i == k {
          assert nodes[i] == ns[k + 1] && nodes[i - 1] == ns[k - 1];
        } else {
          assert nodes[i] == ns[i + 1] && nodes[i - 1] == ns[i];
        }
      }
      forall i | 0 <= i < |nodes| - 1
        ensures nodes[i].next == nodes[i + 1]
      {
        if i < k - 1 {
          assert nodes[i] == ns[i] && nodes[i + 1] == ns[i + 1];
        } else if i == k - 1 {
          assert nodes[i] == ns[k - 1] && nodes[i + 1] == ns[k + 1];
        } else {
          assert nodes[i] == ns[i + 1] && nodes[i + 1] == ns[i + 2];
        }
      }
      forall i | 0 <= i < |nodes|
        ensures nodes[i] in Repr
      {
        assert nodes[i] in ns[..k] + ns[k + 1..];
      }
    }

    /**
     * The pointer statements of ListDelKey on the node p at position k of ns:
     * head or tail moves past p when p is at an end, p's neighbours are
     * linked to each other, and p's own pointers are cleared.
     */
    method Splice(p: ListNode, ghost k: nat, ghost ns: seq<ListNode>)
      requires k < |ns| && p == ns[k] && Distinct(ns)
      requires head == ns[0] && tail == ns[|ns| - 1]
      requires ns[0].prev == null && ns[|ns| - 1].next == null
      requires forall i | 0 < i < |ns| :: ns[i].prev == ns[i - 1]
      requires forall i | 0 <= i < |ns| - 1 :: ns[i].next == ns[i + 1]
      modifies this, p
      modifies if k > 0 then {ns[k - 1]} else {}
      modifies if k + 1 < |ns| then {ns[k + 1]} else {}
      ensures nodes == old(nodes) && Repr == old(Repr) && length == old(length)
      ensures head == (if k > 0 then ns[0] else if |ns| > 1 then ns[1] else null)
      ensures tail == (if k < |ns| - 1 then ns[|ns| - 1] else if k > 0 then ns[k - 1] else null)
      ensures p.next == null && p.prev == null
      ensures k > 0 ==> ns[0].prev == null
      ensures k < |ns| - 1 ==> ns[|ns| - 1].next == null
      ensures forall i | 0 < i < |ns| && i != k && i != k + 1 :: ns[i].prev == ns[i - 1]
      ensures k + 1 < |ns| ==> ns[k + 1].prev == (if k > 0 then ns[k - 1] else null)
      ensures forall i | 0 <= i < |ns| - 1 && i != k - 1 && i != k :: ns[i].next == ns[i + 1]
      ensures k > 0 ==> ns[k - 1].next == (if k + 1 < |ns| then ns[k + 1] else null)
    {
      if head == p {
        if p.next != null {
          p.next.prev := null;
        }
        head := p.next;
        p.next := null;
      }
      if tail == p {
        if p.prev != null {
          p.prev.next := null;
        }
        tail := p.prev;
        p.prev := null;
      }
      if p.prev != null {
        p.prev.next := p.next;
      }
      if p.next != null {
        p.next.prev := p.prev;
      }
      p.next := null;
      p.prev := null;
    }

    /**
     * A nil node is ignored; otherwise the first node whose value matches
     * n's value is unlinked, which need not be n itself.
     */
    method ListDelNode(n: ListNode?)
      requires Valid()
      requires n != null ==> FirstMatch(Vals(), n.val, equalFunc) < |nodes|
      modifies Repr
      ensures Valid() && Repr == old(Repr)
      ensures n == null ==> nodes == old(nodes) && length == old(length)
      ensures n != null ==> var k := FirstMatch(old(Vals()), n.val, equalFunc);
        && nodes == old(nodes[..k] + nodes[k + 1..])
        && old(nodes[k]).next == null && old(nodes[k]).prev == null
        && length == old(length) - 1
    {
      if n != null {
        ListDelKey(n.val);
      }
    }
  }
}
