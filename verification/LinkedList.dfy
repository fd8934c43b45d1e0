/** The intrusive doubly linked list of source/kernel/tools/list.c.

    A task_t embeds one list_node_t per kind of list it can be on.  The macro list_node_parent gets
    from such a node back to the task_t around it; here every node carries, as a constant, the
    address of the task that embeds it. */
module LinkedList {
  import opened Sequences

  class ListNode {
    const parent: nat  // address of the enclosing task_t, what list_node_parent computes
    var pre: ListNode?
    var next: ListNode?
    ghost var home: List?  // the list this node is on, if any

    constructor (parent: nat)
      ensures this.parent == parent
      ensures pre == null && next == null && home == null
    {
      this.parent := parent;
      pre, next, home := null, null, null;
    }
  }

  lemma CutAt(s: seq<ListNode>, k: nat)
    requires NoDup(s) && k < |s|
    ensures var r := s[..k] + s[k + 1..];
            && NoDup(r) && s[k] !in r && |r| == |s| - 1
            && forall i :: 0 <= i < |r| ==> r[i] == s[if i < k then i else i + 1]
  {
  }

  class List {
    var first: ListNode?
    var last: ListNode?
    var count: int
    ghost var nodes: seq<ListNode>

    ghost predicate Valid()
      reads this, nodes
    {
      && count == |nodes|
      && NoDup(nodes)
      && first == (if nodes == [] then null else nodes[0])
      && last == (if nodes == [] then null else nodes[|nodes| - 1])
      && (forall i :: 0 <= i < |nodes| ==> nodes[i].home == this)
      && (forall i {:trigger nodes[i].pre} :: 0 <= i < |nodes| ==>
            nodes[i].pre == (if i == 0 then null else nodes[i - 1]))
      && (forall i {:trigger nodes[i].next} :: 0 <= i < |nodes| ==>
            nodes[i].next == (if i == |nodes| - 1 then null else nodes[i + 1]))
    }

    /** list_init */
    constructor ()
      ensures Valid() && nodes == []
    {
      first, last, count, nodes := null, null, 0, [];
    }

    predicate IsEmpty()
      requires Valid()
      reads this, nodes
      ensures IsEmpty() <==> nodes == []
    {
      count == 0
    }

    method InsertFirst(node: ListNode)
      requires Valid() && node.home == null
      modifies this, nodes, node
      ensures Valid() && nodes == [node] + old(nodes)
    {
      assert node !in nodes;
      node.next := first;
      node.pre := null;
      if IsEmpty() {
        last := node;
        first := node;
      } else {
        first.pre := node;
        first := node;
      }
      count := count + 1;
      nodes, node.home := [node] + nodes, this;
    }

    method InsertLast(node: ListNode)
      requires Valid() && node.home == null
      modifies this, nodes, node
      ensures Valid() && nodes == old(nodes) + [node]
    {
      assert node !in nodes;
      node.pre := last;
      node.next := null;
      if IsEmpty() {
        first := node;
        last := node;
      } else {
        last.next := node;
        last := node;
      }
      count := count + 1;
      nodes, node.home := nodes + [node], this;
    }

    method RemoveFirst() returns (removed: ListNode?)
      requires Valid()
      modifies this, nodes
      ensures Valid()
      ensures old(nodes) == [] ==> removed == null && nodes == []
      ensures old(nodes) != [] ==>
                removed == old(nodes)[0] && nodes == old(nodes)[1..] &&
                removed.pre == null && removed.next == null && removed.home == null
    {
      if IsEmpty() {
        return null;
      }
      removed := first;
      first := removed.next;
      if first == null {
        last := null;
      } else {
        removed.next.pre := null;
      }
      removed.next, removed.pre := null, null;
      count := count - 1;
      nodes, removed.home := nodes[1..], null;
    }

    /** list_remove: unlinks a node from wherever it stands on the list. */
    method Remove(node: ListNode, ghost k: nat)
      requires Valid() && k < |nodes| && nodes[k] == node
      modifies this, nodes
      ensures Valid() && nodes == old(nodes)[..k] + old(nodes)[k + 1..]
      ensures node.pre == null && node.next == null && node.home == null
    {
      assert node.pre == (if k == 0 then null else nodes[k - 1]);
      assert node.next == (if k == |nodes| - 1 then null else nodes[k + 1]);
      ghost var was, rest := nodes, nodes[..k] + nodes[k + 1..];
      CutAt(nodes, k);
      if node == first {
        first := node.next;
      }
      if node == last {
        last := node.pre;
      }
      if node.pre != null {
        node.pre.next := node.next;
      }
      if node.next != null {
        node.next.pre := node.pre;
      }
      node.pre, node.next := null, null;
      count := count - 1;
      nodes, node.home := rest, null;
      forall i | 0 <= i < |nodes|
        ensures nodes[i].home == this
        ensures nodes[i].pre == (if i == 0 then null else nodes[i - 1])
        ensures nodes[i].next == (if i == |nodes| - 1 then null else nodes[i + 1])
      {
        assert nodes[i] == was[if i < k then i else i + 1];
      }
    }

    lemma NodesAreHere()
      requires Valid()
      ensures forall n :: n in nodes ==> n.home == this
    {
    }

    /** The nodes met by following `next` from n, at most `steps` of them. */
    ghost function Forward(n: ListNode?, steps: nat): seq<ListNode>
      requires Valid() && (n != null ==> n in nodes)
      reads this, nodes
      decreases steps
    {
      if n == null || steps == 0 then [] else [n] + Forward(n.next, steps - 1)
    }

    /** The nodes met by following `pre` from n, at most `steps` of them. */
    ghost function Backward(n: ListNode?, steps: nat): seq<ListNode>
      requires Valid() && (n != null ==> n in nodes)
      reads this, nodes
      decreases steps
    {
      if n == null || steps == 0 then [] else [n] + Backward(n.pre, steps - 1)
    }

    lemma {:induction false} ForwardFrom(i: nat, steps: nat)
      requires Valid() && i <= |nodes| && |nodes| - i <= steps
      decreases steps
      ensures Forward(if i < |nodes| then nodes[i] else null, steps) == nodes[i..]
    {
      if i < |nodes| {
        ForwardFrom(i + 1, steps - 1);
      }
    }

    lemma {:induction false} BackwardFrom(i: nat, steps: nat)
      requires Valid() && i <= |nodes| && i <= steps
      decreases steps
      ensures Backward(if i > 0 then nodes[i - 1] else null, steps) == Reversed(nodes[..i])
    {
      if i > 0 {
        BackwardFrom(i - 1, steps - 1);
        assert nodes[..i][..i - 1] == nodes[..i - 1];
        var r, q := Reversed(nodes[..i]), Reversed(nodes[..i - 1]);
        assert [nodes[i - 1]] + q == r;
      }
    }

    /** However far one is prepared to walk, following `next` from `first` meets exactly the nodes of
        the list and stops, and following `pre` from `last` meets the same nodes in reverse. */
    lemma TraversalsAgree(steps: nat)
      requires Valid() && count <= steps
      ensures Forward(first, steps) == nodes
      ensures Backward(last, steps) == Reversed(Forward(first, steps))
    {
      ForwardFrom(0, steps);
      BackwardFrom(|nodes|, steps);
      assert nodes[..|nodes|] == nodes;
    }
  }

  /** l consists of the nodes of the tasks ts. */
  ghost predicate NodesOf(l: seq<ListNode>, ts: seq<nat>, nodes: map<nat, ListNode>) {
    && |l| == |ts|
    && forall i :: 0 <= i < |ts| ==> ts[i] in nodes && l[i] == nodes[ts[i]]
  }

  lemma NodesOfCut(l: seq<ListNode>, ts: seq<nat>, nodes: map<nat, ListNode>, k: nat)
    requires NodesOf(l, ts, nodes) && k < |ts|
    ensures NodesOf(l[..k] + l[k + 1..], ts[..k] + ts[k + 1..], nodes)
    ensures forall n :: n in l[..k] + l[k + 1..] ==> n in l
  {
  }

  lemma NodesOfSnoc(l: seq<ListNode>, ts: seq<nat>, nodes: map<nat, ListNode>, t: nat)
    requires NodesOf(l, ts, nodes) && t in nodes
    ensures NodesOf(l + [nodes[t]], ts + [t], nodes)
    ensures forall n :: n in l + [nodes[t]] ==> n in l || n == nodes[t]
  {
  }

  lemma CutKeepsOthers(s: seq<nat>, k: nat)
    requires k < |s|
    ensures forall x :: x in s && x != s[k] ==> x in s[..k] + s[k + 1..]
  {
    assert s == s[..k] + [s[k]] + s[k + 1..];
  }

  /** Some lists over the same nodes, one node for each task: the ready list and the sleep list over the
      tasks' run_node, or the wait lists of all semaphores and mutexes over the tasks' wait_node. */
  class ListFamily {
    var nodes: map<nat, ListNode>  // the task's node, by the task's address
    var lists: seq<List>
    ghost var ids: seq<seq<nat>>   // the tasks on each list, in order
    ghost var Repr: set<object>

    /** List j is well formed and links exactly the nodes of the tasks ids[j]. */
    ghost predicate Links(j: nat)
      requires j < |lists| && j < |ids|
      reads this, Repr
    {
      var l := lists[j];
      && l in Repr
      && (forall i :: 0 <= i < |l.nodes| ==> l.nodes[i] in Repr)
      && l.Valid()
      && NodesOf(l.nodes, ids[j], nodes)
    }

    ghost predicate OnNone(a: nat)
      reads this
    {
      forall j :: 0 <= j < |ids| ==> a !in ids[j]
    }

    ghost predicate NodesOk()
      reads this, Repr
    {
      forall a :: a in nodes ==> nodes[a] in Repr && nodes[a].parent == a
    }

    /** A node that is on no list says so. */
    ghost predicate HomesOk()
      reads this, Repr
    {
      forall a :: a in nodes && nodes[a] in Repr && OnNone(a) ==> nodes[a].home == null
    }

    ghost predicate Valid()
      reads this, Repr
      ensures Valid() ==> this in Repr && |ids| == |lists|
    {
      && this in Repr
      && NodesOk()
      && HomesOk()
      && |ids| == |lists|
      && NoDup(lists)
      && forall j :: 0 <= j < |lists| ==> Links(j)
    }

    /** No list yet, and one task. */
    constructor Empty(t: nat)
      ensures Valid() && fresh(Repr) && ids == [] && nodes.Keys == {t}
    {
      var node := new ListNode(t);
      nodes, lists, ids := map[t := node], [], [];
      Repr := {this, node};
    }

    /** Two empty lists, and one task. */
    constructor Two(t: nat)
      ensures Valid() && fresh(Repr) && ids == [[], []] && nodes.Keys == {t}
    {
      var node := new ListNode(t);
      var first := new List();
      var second := new List();
      nodes, lists, ids := map[t := node], [first, second], [[], []];
      Repr := {this, node, first, second};
    }

    /** A change to list j and to nodes that were on it or on no list leaves the other lists well formed. */
    twostate lemma OthersFrame(j: nat)
      requires old(Valid())
      requires lists == old(lists) && nodes == old(nodes) && Repr == old(Repr) && |ids| == old(|ids|)
      requires j < |ids| && forall i :: 0 <= i < |ids| && i != j ==> ids[i] == old(ids)[i] && unchanged(lists[i])
      requires forall a :: a in nodes && old(nodes[a].home) != null && old(nodes[a].home) != lists[j] ==>
                 unchanged(nodes[a])
      ensures forall i :: 0 <= i < |ids| && i != j ==> Links(i)
    {
      forall i | 0 <= i < |ids| && i != j ensures Links(i) {
        assert old(Links(i));
        assert forall p :: 0 <= p < |ids[i]| ==> lists[i].nodes[p] == nodes[ids[i][p]];
        assert unchanged(lists[i].nodes);
      }
    }

    /** List j alone has changed, and the nodes that left it say so. */
    twostate lemma HomesKept(j: nat)
      requires old(HomesOk())
      requires nodes == old(nodes) && Repr == old(Repr) && |ids| == old(|ids|) && j < |ids|
      requires forall i :: 0 <= i < |ids| && i != j ==> ids[i] == old(ids)[i]
      requires forall a :: a in nodes && nodes[a] in Repr && a !in ids[j] ==>
                 nodes[a].home == null || (a !in old(ids)[j] && nodes[a].home == old(nodes[a].home))
      ensures HomesOk()
    {
      forall a | a in nodes && nodes[a] in Repr && OnNone(a) ensures nodes[a].home == null {
        assert forall i :: 0 <= i < |ids| ==> a !in ids[i];
        assert a !in old(ids)[j] ==> old(OnNone(a));
      }
    }

    lemma IdsDistinct(j: nat)
      requires Valid() && j < |lists|
      ensures NoDup(ids[j])
    {
      assert Links(j);
      var l := lists[j];
      forall p, q | 0 <= p < q < |ids[j]| ensures ids[j][p] != ids[j][q] {
        assert l.nodes[p] != l.nodes[q];
      }
    }

    method Append(j: nat, t: nat)
      requires Valid() && j < |lists| && t in nodes && OnNone(t)
      modifies Repr
      ensures Valid() && Repr == old(Repr) && nodes == old(nodes) && lists == old(lists)
      ensures ids == old(ids)[j := old(ids)[j] + [t]]
    {
      assert nodes[t].home == null;
      hide HomesOk, List.Valid;
      assert Links(j);
      lists[j].NodesAreHere();
      NodesOfSnoc(lists[j].nodes, ids[j], nodes, t);
      lists[j].InsertLast(nodes[t]);
      ids := ids[j := ids[j] + [t]];
      assert Links(j);
      assert t in ids[j];
      assert HomesOk() by { HomesKept(j); }
      assert forall i :: 0 <= i < |ids| && i != j ==> Links(i) by { OthersFrame(j); }
    }

    method Remove(j: nat, t: nat)
      requires Valid() && j < |lists| && t in ids[j]
      modifies Repr
      ensures Valid() && Repr == old(Repr) && nodes == old(nodes) && lists == old(lists)
      ensures ids == old(ids)[j := Without(old(ids)[j], t)]
    {
      hide HomesOk, Links, NodesOk;
      IdsDistinct(j);
      ghost var k :| 0 <= k < |ids[j]| && ids[j][k] == t;
      WithoutAt(ids[j], k);
      Unlink(j, t, k);
    }

    /** list_remove of the node of task t, which is the k-th on list j. */
    method Unlink(j: nat, t: nat, ghost k: nat)
      requires Valid() && j < |lists| && k < |ids[j]| && ids[j][k] == t
      modifies Repr
      ensures Valid() && Repr == old(Repr) && nodes == old(nodes) && lists == old(lists)
      ensures ids == old(ids)[j := old(ids)[j][..k] + old(ids)[j][k + 1..]]
    {
      hide HomesOk, List.Valid;
      assert Links(j);
      NodesOfCut(lists[j].nodes, ids[j], nodes, k);
      CutKeepsOthers(ids[j], k);
      lists[j].NodesAreHere();
      lists[j].Remove(nodes[t], k);
      ids := ids[j := ids[j][..k] + ids[j][k + 1..]];
      assert Links(j);
      assert HomesOk() by { HomesKept(j); }
      assert forall i :: 0 <= i < |ids| && i != j ==> Links(i) by { OthersFrame(j); }
    }

    /** list_remove_first on list j, and the task the removed node belongs to. */
    method PopFirst(j: nat) returns (t: nat)
      requires Valid() && j < |lists| && ids[j] != []
      modifies Repr
      ensures Valid() && Repr == old(Repr) && nodes == old(nodes) && lists == old(lists)
      ensures t == old(ids)[j][0] && ids == old(ids)[j := old(ids)[j][1..]]
    {
      hide HomesOk;
      assert Links(j);
      var node := lists[j].RemoveFirst();
      t := node.parent;
      ids := ids[j := ids[j][1..]];
      assert Links(j);
      assert old(ids)[j] == [t] + ids[j];
      assert HomesOk() by { HomesKept(j); }
      assert forall i :: 0 <= i < |ids| && i != j ==> Links(i) by { OthersFrame(j); }
    }

    /** list_count */
    method Count(j: nat) returns (n: int)
      requires Valid() && j < |lists|
      ensures n == |ids[j]|
    {
      assert Links(j);
      n := lists[j].count;
    }

    /** list_first */
    method First(j: nat) returns (n: ListNode?)
      requires Valid() && j < |lists|
      ensures ids[j] != [] ==> ids[j][0] in nodes
      ensures n == if ids[j] == [] then null else nodes[ids[j][0]]
    {
      assert Links(j);
      n := lists[j].first;
    }

    /** list_node_parent */
    lemma ParentOf(a: nat)
      requires Valid() && a in nodes
      ensures nodes[a].parent == a
    {
    }

    /** list_node_next of the i-th node of list j */
    lemma NextOf(j: nat, i: nat)
      requires Valid() && j < |lists| && i < |ids[j]|
      ensures ids[j][i] in nodes && (i + 1 < |ids[j]| ==> ids[j][i + 1] in nodes)
      ensures nodes[ids[j][i]].next == if i + 1 < |ids[j]| then nodes[ids[j][i + 1]] else null
    {
      assert Links(j);
      assert lists[j].nodes[i].next == if i + 1 < |ids[j]| then lists[j].nodes[i + 1] else null;
    }

    /** A list_init on new storage. */
    method NewList() returns (list: List)
      requires Valid()
      modifies this
      ensures Valid() && fresh(list) && Repr == old(Repr) + {list}
      ensures nodes == old(nodes) && lists == old(lists) + [list] && ids == old(ids) + [[]]
    {
      list := new List();
      lists, ids, Repr := lists + [list], ids + [[]], Repr + {list};
      forall i | 0 <= i < |lists| ensures Links(i) {
        if i < |lists| - 1 {
          assert old(Links(i));
          LinksExtend(i);
        }
      }
      forall a | a in nodes && nodes[a] in Repr && OnNone(a) ensures nodes[a].home == null {
        assert forall j :: 0 <= j < |old(ids)| ==> ids[j] == old(ids)[j] && a !in ids[j];
        assert old(a in nodes && nodes[a] in Repr && OnNone(a));
      }
    }

    twostate lemma LinksExtend(i: nat)
      requires i < |lists| && i < |ids|
      requires old(i < |lists| && i < |ids| && Links(i))
      requires lists[i] == old(lists[i]) && ids[i] == old(ids[i]) && old(Repr) <= Repr
      requires old(nodes.Keys) <= nodes.Keys && forall a :: a in old(nodes) ==> nodes[a] == old(nodes)[a]
      requires unchanged(lists[i]) && unchanged(lists[i].nodes)
      ensures Links(i)
    {
    }

    /** A list_node_init for a task that had no node here. */
    method NewNode(t: nat) returns (node: ListNode)
      requires Valid() && t !in nodes && OnNone(t)
      modifies this
      ensures Valid() && fresh(node) && Repr == old(Repr) + {node}
      ensures nodes.Keys == old(nodes).Keys + {t} && lists == old(lists) && ids == old(ids)
    {
      node := new ListNode(t);
      nodes, Repr := nodes[t := node], Repr + {node};
      forall i | 0 <= i < |lists| ensures Links(i) {
        assert old(Links(i));
        LinksExtend(i);
      }
      forall a | a in nodes && nodes[a] in Repr && OnNone(a) ensures nodes[a].home == null {
        if a != t {
          assert old(a in nodes && nodes[a] in Repr && OnNone(a));
          assert nodes[a] == old(nodes)[a];
        }
      }
    }
  }
}
