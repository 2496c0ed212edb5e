/**
  The doubly linked list of gpg keys (src/gnupg/key-manager.c) and its filtering in place
  (src/gnupg/key-filter.c).
 */
module KeyLists {
  import opened Wrappers
  import opened Filters

  /** A user id of a key; each field may be NULL. */
  datatype Uid = Uid(uid: Option<string>, name: Option<string>, email: Option<string>,
                     comment: Option<string>, address: Option<string>)

  datatype Key = Key(fpr: Option<string>, uids: seq<Uid>, expired: bool, disabled: bool, invalid: bool,
                     revoked: bool, canEncrypt: bool, secret: bool)

  class Node {
    const key: Key
    var prev: Node?
    var next: Node?

    constructor (key: Key, prev: Node?)
      ensures this.key == key && this.prev == prev && this.next == null
    {
      this.key, this.prev, this.next := key, prev, null;
    }
  }

  function KeysOf(nodes: seq<Node>): (r: seq<Key>)
    ensures |r| == |nodes|
  {
    if nodes == [] then [] else [nodes[0].key] + KeysOf(nodes[1..])
  }

  lemma {:induction false} KeysOfConcat(a: seq<Node>, b: seq<Node>)
    ensures KeysOf(a + b) == KeysOf(a) + KeysOf(b)
  {
    if a == [] {
      assert a + b == b;
    } else {
      assert (a + b)[1..] == a[1..] + b;
      KeysOfConcat(a[1..], b);
    }
  }

  /** Let two nodes, as far as there are any, point at each other. */
  method Relink(prev: Node?, next: Node?)
    requires prev == null || prev != next
    modifies if prev == null then {} else {prev}, if next == null then {} else {next}
    ensures prev != null ==> prev.next == next && prev.prev == old(prev.prev)
    ensures next != null ==> next.prev == prev && next.next == old(next.next)
  {
    if prev != null {
      prev.next := next;
    }
    if next != null {
      next.prev := prev;
    }
  }

  function NodeAt(nodes: seq<Node>, i: int): Node? {
    if 0 <= i < |nodes| then nodes[i] else null
  }

  lemma NodeIs(nodes: seq<Node>, i: int)
    ensures NodeAt(nodes, i) == if 0 <= i < |nodes| then nodes[i] else null
  {
  }

  /** No node occurs twice, and all links agree with the order. */
  ghost predicate Linked(nodes: seq<Node>)
    reads nodes
  {
    && (forall i, j | 0 <= i < j < |nodes| :: nodes[i] != nodes[j])
    && (forall i {:trigger nodes[i].next} | 0 <= i < |nodes| :: nodes[i].next == NodeAt(nodes, i + 1))
    && (forall i {:trigger nodes[i].prev} | 0 <= i < |nodes| :: nodes[i].prev == NodeAt(nodes, i - 1))
  }

  lemma GrownLinked(nodes: seq<Node>, node: Node)
    requires forall i, j | 0 <= i < j < |nodes| :: nodes[i] != nodes[j]
    requires node !in nodes && node.next == null && node.prev == NodeAt(nodes, |nodes| - 1)
    requires forall i {:trigger nodes[i].next} | 0 <= i < |nodes| ::
               nodes[i].next == if i + 1 < |nodes| then nodes[i + 1] else node
    requires forall i {:trigger nodes[i].prev} | 0 <= i < |nodes| :: nodes[i].prev == NodeAt(nodes, i - 1)
    ensures Linked(nodes + [node])
  {
    var grown := nodes + [node];
    forall i | 0 <= i < |nodes|
      ensures grown[i].next == NodeAt(grown, i + 1) && grown[i].prev == NodeAt(grown, i - 1)
    {
      assert grown[i] == nodes[i];
    }
  }

  /** The links leave out the node at position `i`. */
  ghost predicate SkipLinked(nodes: seq<Node>, i: nat)
    reads nodes
  {
    && (forall j, k | 0 <= j < k < |nodes| :: nodes[j] != nodes[k])
    && (forall k {:trigger nodes[k].next} | 0 <= k < |nodes| && k != i ::
          nodes[k].next == NodeAt(nodes, if k + 1 == i then k + 2 else k + 1))
    && (forall k {:trigger nodes[k].prev} | 0 <= k < |nodes| && k != i ::
          nodes[k].prev == NodeAt(nodes, if k - 1 == i then k - 2 else k - 1))
  }

  lemma CutLinked(nodes: seq<Node>, i: nat)
    requires i < |nodes| && SkipLinked(nodes, i)
    ensures Linked(nodes[..i] + nodes[i + 1..])
  {
    var cut := nodes[..i] + nodes[i + 1..];
    assert forall k | 0 <= k < |cut| :: cut[k] == nodes[if k < i then k else k + 1];
    forall k | 0 <= k < |cut|
      ensures cut[k].next == NodeAt(cut, k + 1) && cut[k].prev == NodeAt(cut, k - 1)
    {
      var m := if k < i then k else k + 1;
      assert nodes[m].next == NodeAt(nodes, if m + 1 == i then m + 2 else m + 1);
      assert nodes[m].prev == NodeAt(nodes, if m - 1 == i then m - 2 else m - 1);
    }
  }

  ghost function Neighbours(node: Node): set<Node>
    reads node
  {
    (if node.prev == null then {} else {node.prev}) + (if node.next == null then {} else {node.next})
  }

  class KeyList {
    var head: Node?
    var tail: Node?
    /** The nodes from head to tail. */
    ghost var nodes: seq<Node>

    ghost function At(i: int): Node?
      reads this
    {
      NodeAt(nodes, i)
    }

    lemma NodeIs(nodes: seq<Node>, i: int)
    ensures NodeAt(nodes, i) == if 0 <= i < |nodes| then nodes[i] else null
  {
  }

  /** No node occurs twice, and all links agree with the order. */
    ghost predicate Valid()
      reads this, nodes
    {
      Linked(nodes) && head == At(0) && tail == At(|nodes| - 1)
    }

    ghost function Repr(): set<Node>
      reads this
    {
      set n | n in nodes
    }

    ghost function Keys(): seq<Key>
      reads this
    {
      KeysOf(nodes)
    }

    constructor ()
      ensures Valid() && nodes == []
    {
      head, tail, nodes := null, null, [];
    }

    /** `gpg_key_list_push` */
    method Push(key: Key) returns (node: Node)
      requires Valid()
      modifies this, Repr()
      ensures Valid() && fresh(node) && node.key == key && nodes == old(nodes) + [node]
      ensures Keys() == old(Keys()) + [key] && Repr() == old(Repr()) + {node}
    {
      hide KeysOf;
      node := new Node(key, tail);
      Relink(tail, node);
      head := if head == null then node else head;
      tail := node;
      KeysOfSnoc(nodes, node);
      GrownLinked(nodes, node);
      nodes := nodes + [node];
    }

    /** Take the node at position `i` out of the list. */
    method Unlink(node: Node, ghost i: nat)
      requires Valid() && i < |nodes| && nodes[i] == node
      modifies this, Neighbours(node)
      ensures Valid() && nodes == old(nodes[..i] + nodes[i + 1..])
    {
      hide SkipLinked;
      var next, prev := node.next, node.prev;
      head := if head == node then next else head;
      tail := if tail == node then prev else tail;
      SkipNode(node, i);
      CutLinked(nodes, i);
      nodes := nodes[..i] + nodes[i + 1..];
    }

    /** Let the neighbours of a node point at each other. */
    method SkipNode(node: Node, ghost i: nat)
      requires Linked(nodes) && i < |nodes| && nodes[i] == node
      modifies Neighbours(node)
      ensures SkipLinked(nodes, i)
    {
      hide NodeAt;
      ghost var before, after := NodeAt(nodes, i - 1), NodeAt(nodes, i + 1);
      NodeIs(nodes, i - 1);
      NodeIs(nodes, i + 1);
      assert node.prev == before && node.next == after;
      Relink(node.prev, node.next);
      forall k | 0 <= k < |nodes| && k != i
        ensures nodes[k].next == NodeAt(nodes, if k + 1 == i then k + 2 else k + 1)
        ensures nodes[k].prev == NodeAt(nodes, if k - 1 == i then k - 2 else k - 1)
      {
        assert nodes[k] == before <==> k == i - 1;
        assert nodes[k] == after <==> k == i + 1;
      }
    }

    lemma NodesIn(i: nat)
      requires Valid()
      ensures head == At(0)
      ensures i < |nodes| ==> forall n | n in Neighbours(nodes[i]) :: n in nodes
    {
    }

    /** One round of the loop below: go on to the next node, and take this one out if it is not kept. */
    method Round(node: Node, ghost i: nat, keep: bool) returns (next: Node?)
      requires Valid() && i < |nodes| && nodes[i] == node
      modifies this, Neighbours(node)
      ensures Valid() && next == At(if keep then i + 1 else i)
      ensures nodes == if keep then old(nodes) else old(nodes[..i] + nodes[i + 1..])
    {
      next := node.next;
      if !keep {
        Unlink(node, i);
      }
    }

    /** `filter_gpg_keys_by_predicate`: take out all nodes whose key does not satisfy the predicate. */
    method FilterByPredicate(p: Key -> bool) returns (filtered: nat)
      requires Valid()
      modifies this, Repr()
      ensures Valid() && Keys() == Filter(old(Keys()), p) && filtered == |old(Keys())| - |Keys()|
      ensures Repr() <= old(Repr())
    {
      hide KeyList.Valid, Neighbours, Filtering;
      filtered := 0;
      ghost var was, kept, j := nodes, [], 0;
      FilteringStart(was, p);
      NodesIn(0);
      var node := head;
      while node != null
        invariant Valid() && Filtering(nodes, was, kept, j, p) && filtered == j - |kept|
        invariant node == At(|kept|)
        invariant Repr() <= old(Repr())
        decreases |was| - j
      {
        FilteringStep(nodes, was, kept, j, p);
        NodesIn(|kept|);
        assert Neighbours(node) <= Repr();
        var keep := p(node.key);
        node := Round(node, |kept|, keep);
        if keep {
          kept := kept + [was[j]];
        } else {
          filtered := filtered + 1;
        }
        j := j + 1;
      }
      FilteringEnd(nodes, was, kept, j, p);
    }

    /** `release_gpg_key_list`: every node is freed once, and the list is empty afterwards. */
    method Release() returns (ghost freed: seq<Node>)
      requires Valid()
      modifies this
      ensures Valid() && nodes == [] && freed == old(nodes)
      ensures forall i, j | 0 <= i < j < |freed| :: freed[i] != freed[j]
    {
      freed := [];
      var node := head;
      while node != null
        invariant unchanged(this) && |freed| <= |nodes| && freed == nodes[..|freed|] && node == At(|freed|)
        decreases |nodes| - |freed|
      {
        var next := node.next;
        freed := freed + [node];
        node := next;
      }
      head, tail, nodes := null, null, [];
    }
  }

  lemma KeysOfSnoc(nodes: seq<Node>, node: Node)
    ensures KeysOf(nodes + [node]) == KeysOf(nodes) + [node.key]
  {
    KeysOfConcat(nodes, [node]);
    assert [node][1..] == [];
  }

  /** `kept` has been kept of the first `j` nodes, and the others are still there. */
  ghost predicate Filtering(nodes: seq<Node>, was: seq<Node>, kept: seq<Node>, j: nat, p: Key -> bool) {
    && j <= |was| && |kept| <= j
    && nodes == kept + was[j..]
    && KeysOf(kept) == Filter(KeysOf(was[..j]), p)
  }

  lemma FilteringStart(was: seq<Node>, p: Key -> bool)
    ensures Filtering(was, was, [], 0, p)
  {
  }

  lemma FilteringStep(nodes: seq<Node>, was: seq<Node>, kept: seq<Node>, j: nat, p: Key -> bool)
    requires Filtering(nodes, was, kept, j, p) && |kept| < |nodes|
    ensures j < |was| && nodes[|kept|] == was[j]
    ensures if p(was[j].key) then Filtering(nodes, was, kept + [was[j]], j + 1, p)
            else Filtering(nodes[..|kept|] + nodes[|kept| + 1..], was, kept, j + 1, p)
    ensures forall n | n in nodes[..|kept|] + nodes[|kept| + 1..] :: n in nodes
  {
    hide Filter, KeysOf;
    assert was[..j + 1] == was[..j] + [was[j]];
    KeysOfSnoc(was[..j], was[j]);
    FilterSnoc(KeysOf(was[..j]), was[j].key, p);
    KeysOfSnoc(kept, was[j]);
    assert nodes == kept + [was[j]] + was[j + 1..];
    assert nodes[..|kept|] == kept && nodes[|kept| + 1..] == was[j + 1..];
    var f := Filter(KeysOf(was[..j]), p);
    assert f + [] == f;
  }

  lemma FilteringEnd(nodes: seq<Node>, was: seq<Node>, kept: seq<Node>, j: nat, p: Key -> bool)
    requires Filtering(nodes, was, kept, j, p) && |kept| >= |nodes|
    ensures nodes == kept && j == |was| && KeysOf(nodes) == Filter(KeysOf(was), p)
  {
    assert was[..j] == was;
  }
}
