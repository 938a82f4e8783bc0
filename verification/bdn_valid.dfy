/** The consistency conditions a `BdNetwork` keeps between its parts. */
module BdnValid {
  import opened Base
  import opened Canon
  import opened BdnTypes
  import opened BdnTable

  /** Every id in use lies below the node-array size: what the assertion in
      `reg_node` relies on. */
  predicate PoolBounded(net: Network) {
    forall i: nat :: i in net.nodePool ==> i < |net.nodeArray|
  }

  /** The hash table exists and every chain entry is a logic node object. */
  predicate TableClosed(net: Network) {
    && |net.buckets| > 0
    && (forall i, k :: 0 <= i < |net.buckets| && 0 <= k < |net.buckets[i]| ==>
          net.buckets[i][k] in net.objs && net.objs[net.buckets[i][k]].kind == Logic)
  }

  /** Every member of the input and output lists is registered and has a kind
      of its list. */
  predicate IoOk(net: Network) {
    && (forall k :: 0 <= k < |net.inputs| ==>
          Registered(net, net.inputs[k]) && IsInputKind(net.objs[net.inputs[k]].kind))
    && (forall k :: 0 <= k < |net.outputs| ==>
          Registered(net, net.outputs[k]) && IsOutputKind(net.objs[net.outputs[k]].kind))
  }

  /** The network invariant: objects below the allocation mark, id pool and
      node array in agreement, fanin slots and fanout lists in agreement,
      logic nodes canonical and structurally unique, and the hash table
      holding exactly the logic nodes, each in the bucket of its key. */
  predicate Valid(net: Network) {
    && ObjsBounded(net)
    && PoolOk(net)
    && FanoutOk(net.objs)
    && LnodesOk(net)
    && TableOk(net)
  }

  lemma ValidClosed(net: Network)
    requires Valid(net)
    ensures TableClosed(net) && PoolBounded(net)
  {
  }

  /** Distinct registered objects carry distinct ids. */
  lemma RegisteredIdsDiffer(net: Network, a: Ref, b: Ref)
    requires Registered(net, a) && Registered(net, b) && a != b
    ensures IdOf(net, a) != IdOf(net, b)
  {
  }

  /** The invariant only looks at objects, the id pool, the node array, the
      logic-node list and the table. */
  lemma ValidFrame(a: Network, b: Network)
    requires Valid(a)
    requires a.objs == b.objs && a.nextRef == b.nextRef && a.nodeArray == b.nodeArray
    requires a.nodePool == b.nodePool && a.lnodes == b.lnodes && a.buckets == b.buckets
    ensures Valid(b)
  {
    assert forall r :: IdOf(a, r) == IdOf(b, r);
    assert forall r :: Registered(a, r) == Registered(b, r);
    assert forall r :: r in a.objs ==> KeyHash(a, r) == KeyHash(b, r);
  }

  /** Kind, code and fanins: what the logic-node invariants read of a node. */
  predicate SameLogic(m: Node, n: Node) {
    m.kind == n.kind && m.fcode == n.fcode && m.fanin0 == n.fanin0 && m.fanin1 == n.fanin1
  }

  /** A change that keeps every id, the pool, the node array, the table and
      the logic nodes as they were, and keeps slots and fanouts in agreement,
      keeps the invariant. */
  lemma ValidTransfer(a: Network, b: Network)
    requires Valid(a) && FanoutOk(b.objs)
    requires b.objs.Keys == a.objs.Keys && b.nextRef == a.nextRef
    requires b.nodePool == a.nodePool && b.nodeArray == a.nodeArray
    requires b.lnodes == a.lnodes && b.buckets == a.buckets
    requires forall y :: y in a.objs ==> b.objs[y].id == a.objs[y].id
    requires forall k :: 0 <= k < |a.lnodes| ==> SameLogic(b.objs[a.lnodes[k]], a.objs[a.lnodes[k]])
    ensures Valid(b)
    ensures forall y :: Registered(a, y) == Registered(b, y)
  {
    assert forall y :: IdOf(b, y) == IdOf(a, y);
    TransferLnodes(a, b);
    TransferTable(a, b);
  }

  lemma TransferLnodes(a: Network, b: Network)
    requires LnodesOk(a)
    requires b.objs.Keys == a.objs.Keys && b.nodePool == a.nodePool && b.nodeArray == a.nodeArray
    requires b.lnodes == a.lnodes
    requires forall y :: IdOf(b, y) == IdOf(a, y)
    requires forall y :: y in a.objs ==> b.objs[y].id == a.objs[y].id
    requires forall k :: 0 <= k < |a.lnodes| ==> SameLogic(b.objs[a.lnodes[k]], a.objs[a.lnodes[k]])
    ensures LnodesOk(b)
  {
    forall k | 0 <= k < |b.lnodes| ensures Registered(b, b.lnodes[k]) && Canonical(b, b.lnodes[k]) {
      assert Registered(a, a.lnodes[k]) && Canonical(a, a.lnodes[k]);
    }
    forall j, k | 0 <= j < k < |b.lnodes|
      ensures KeyOf(b.objs[b.lnodes[j]]) != KeyOf(b.objs[b.lnodes[k]])
    {
      assert KeyOf(a.objs[a.lnodes[j]]) != KeyOf(a.objs[a.lnodes[k]]);
      assert SameLogic(b.objs[a.lnodes[j]], a.objs[a.lnodes[j]]);
      assert SameLogic(b.objs[a.lnodes[k]], a.objs[a.lnodes[k]]);
    }
  }

  lemma TransferTable(a: Network, b: Network)
    requires TableOk(a)
    requires b.objs.Keys == a.objs.Keys && b.lnodes == a.lnodes && b.buckets == a.buckets
    requires forall y :: IdOf(b, y) == IdOf(a, y)
    requires forall k :: 0 <= k < |a.lnodes| ==> SameLogic(b.objs[a.lnodes[k]], a.objs[a.lnodes[k]])
    ensures TableOk(b)
  {
    forall k | 0 <= k < |a.lnodes| ensures KeyHash(b, a.lnodes[k]) == KeyHash(a, a.lnodes[k]) {
      assert SameLogic(b.objs[a.lnodes[k]], a.objs[a.lnodes[k]]);
    }
    forall i, k | 0 <= i < |b.buckets| && 0 <= k < |b.buckets[i]|
      ensures b.objs[b.buckets[i][k]].kind == Logic && BucketOf(b, b.buckets[i][k]) == i
    {
      var z := b.buckets[i][k];
      assert z in a.lnodes;
      var j :| 0 <= j < |a.lnodes| && a.lnodes[j] == z;
    }
  }

  /** The input and output lists stay registered when every registration and
      every kind is kept. */
  lemma IoTransfer(a: Network, b: Network)
    requires IoOk(a)
    requires b.inputs == a.inputs && b.outputs == a.outputs
    requires forall y :: Registered(a, y) ==> Registered(b, y)
    requires forall y :: y in a.objs ==> y in b.objs && b.objs[y].kind == a.objs[y].kind
    ensures IoOk(b)
  {
  }
}
