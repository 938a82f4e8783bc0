/** The creating path of `BdNetwork::set_logic` (`new_logic` and the AND,
    OR and XOR shorthands) and `make_tree`: canonicalise the request, probe
    the hash table for the canonical key, and otherwise add one logic node. */
module BdnLogic {
  import opened Base
  import opened IdPool
  import opened TruthTable
  import opened Canon
  import opened BdnTypes
  import opened BdnTable
  import opened BdnConnect
  import opened BdnValid
  import opened BdnBuild

  /** A network together with the handle an operation returned. */
  datatype Built = Built(net: Network, handle: Handle)

  /** What the creating path needs of a network: fresh objects lie above
      the allocated ones, `reg_node`'s assertion holds and the table exists
      with node objects in its chains. */
  predicate Ready(net: Network) {
    ObjsBounded(net) && PoolBounded(net) && TableClosed(net)
  }

  /** The handle's node, if any, is an object of the network. */
  predicate HandleIn(net: Network, h: Handle) {
    h.node.Some? ==> h.node.value in net.objs
  }

  /** The value of `h` when its node is read as its gate over the values `v`
      gives to the gate's fanins; a handle without a node is its constant. */
  function GateVal(net: Network, h: Handle, v: Valuation): bool {
    match h.node
    case None => h.inv
    case Some(x) =>
      if x in net.objs then
        var n := net.objs[x];
        Apply(n.fcode, n.fanin0.Some? && n.fanin0.value in v,
                       n.fanin1.Some? && n.fanin1.value in v) != h.inv
      else h.inv
  }

  /** Node `x` gets code `g` (`set_fcode`). */
  function SetCode(net: Network, x: Ref, g: FCode): (r: Network)
    requires x in net.objs
    ensures r == net.(objs := r.objs)
    ensures r.objs.Keys == net.objs.Keys && r.objs[x].fcode == g
    ensures forall y :: y in net.objs && y != x ==> r.objs[y] == net.objs[y]
    ensures SameAttrs(r.objs[x], net.objs[x].(fcode := g)) && r.objs[x].fanouts == net.objs[x].fanouts
    ensures Slot(r.objs[x], 0) == Slot(net.objs[x], 0) && Slot(r.objs[x], 1) == Slot(net.objs[x], 1)
  {
    net.(objs := net.objs[x := net.objs[x].(fcode := g)])
  }

  /** The table `set_logic` inserts into once it has decided to add a node:
      doubled and rehashed when the logic-node count, the new node included,
      reaches the load limit.  The rehash only moves the existing chains,
      which neither hold the new node nor change their keys when it is
      allocated, so it is computed on the network before the allocation. */
  function Table(net: Network): (r: Network)
    requires TableClosed(net)
    ensures r == net.(buckets := r.buckets, nextLimit := r.nextLimit)
    ensures |r.buckets| >= |net.buckets| > 0
    // below the limit nothing changes; at or above it the table at least doubles
    ensures |net.lnodes| + 1 < net.nextLimit ==> r == net
    ensures |net.lnodes| + 1 >= net.nextLimit ==>
              |r.buckets| >= 2 * |net.buckets| && r.nextLimit == |r.buckets| * 9 / 5
  {
    if |net.lnodes| + 1 >= net.nextLimit then AllocTable(net, |net.buckets| * 2) else net
  }

  /** `alloc_logicnode` and `reg_node`: a fresh logic node object with the
      smallest free id. */
  function Allocate(net: Network): (r: Network)
    requires ObjsBounded(net) && PoolBounded(net)
    ensures net.nextRef !in net.objs
    ensures r == net.(objs := r.objs, nextRef := net.nextRef + 1, nodePool := r.nodePool, nodeArray := r.nodeArray)
    ensures r.objs.Keys == net.objs.Keys + {net.nextRef}
    ensures forall y :: y in net.objs ==> r.objs[y] == net.objs[y]
    ensures r.objs[net.nextRef].kind == Logic
    ensures ObjsBounded(r) && PoolBounded(r)
  {
    var net1 := AllocObj(net, Logic);
    RegNodeAssertHolds(net1);
    RegNodeKeepsRegistered(net1, net.nextRef);
    RegNode(net1, net.nextRef)
  }

  /** `set_fcode` and the two `connect` calls: node `n` gets code `g` and
      fanins `a` and `b`. */
  function Wire(net: Network, n: Ref, g: FCode, a: Ref, b: Ref): (r: Network)
    requires n in net.objs && a in net.objs && b in net.objs
    ensures r == net.(objs := r.objs, levelCache := 0)
    ensures r.objs.Keys == net.objs.Keys
    ensures r.objs[n].kind == net.objs[n].kind && Matches(r.objs[n], g, a, b)
    ensures forall y :: y in net.objs ==> r.objs[y].kind == net.objs[y].kind
  {
    var net1 := SetCode(net, n, g);
    var net2 := Connect(net1, Some(a), n, 0);
    Connect(net2, Some(b), n, 1)
  }

  /** The head insertion of `n` into bucket `idx`. */
  function Hook(net: Network, n: Ref, idx: nat): (r: Network)
    requires idx < |net.buckets|
    ensures r == net.(buckets := r.buckets)
    ensures |r.buckets| == |net.buckets| && r.buckets[idx] == [n] + net.buckets[idx]
    ensures forall i :: 0 <= i < |net.buckets| && i != idx ==> r.buckets[i] == net.buckets[i]
  {
    net.(buckets := net.buckets[idx := [n] + net.buckets[idx]])
  }

  /** The miss branch of `set_logic` with `node == NULL`: a logic node is
      allocated and registered, joins the logic-node list, gets code `g` and
      fanins `a`, `b`, and is pushed on the head of its bucket. */
  function AddLogicNode(net: Network, g: FCode, a: Ref, b: Ref): (r: Network)
    requires Ready(net) && a in net.objs && b in net.objs
    ensures net.nextRef !in net.objs
    ensures r.objs.Keys == net.objs.Keys + {net.nextRef} && r.nextRef == net.nextRef + 1
    ensures r.lnodes == net.lnodes + [net.nextRef]
    ensures Ready(r)
  {
    var n := net.nextRef;
    var t := Table(net);
    TableClosedAfter(net);
    var net2 := Allocate(net);
    var net4 := net2.(lnodes := net2.lnodes + [n], buckets := t.buckets, nextLimit := t.nextLimit);
    var net7 := Wire(net4, n, g, a, b);
    var idx := Hash(g, IdOf(net7, a), IdOf(net7, b)) % |net7.buckets|;
    ClosedTransfer(t, net7);
    HookClosed(net7, n, idx);
    Hook(net7, n, idx)
  }

  /** The table stays closed when objects are only added and keep their
      kinds. */
  lemma ClosedTransfer(a: Network, b: Network)
    requires TableClosed(a) && b.buckets == a.buckets
    requires forall y :: y in a.objs ==> y in b.objs && b.objs[y].kind == a.objs[y].kind
    ensures TableClosed(b)
  {
  }

  /** Pushing a logic node object on a chain keeps the table closed. */
  lemma HookClosed(net: Network, n: Ref, idx: nat)
    requires TableClosed(net) && idx < |net.buckets|
    requires n in net.objs && net.objs[n].kind == Logic
    ensures TableClosed(Hook(net, n, idx))
  {
    var r := Hook(net, n, idx);
    forall i, k | 0 <= i < |r.buckets| && 0 <= k < |r.buckets[i]|
      ensures r.buckets[i][k] in r.objs && r.objs[r.buckets[i][k]].kind == Logic
    {
      if i == idx && k > 0 {
        assert r.buckets[i][k] == net.buckets[i][k - 1];
      }
    }
  }

  /** The chains of the possibly resized table hold logic node objects. */
  lemma TableClosedAfter(net: Network)
    requires TableClosed(net)
    ensures TableClosed(Table(net))
  {
    if |net.lnodes| + 1 >= net.nextLimit {
      AllocTableClosed(net, |net.buckets| * 2);
    }
  }

  lemma AllocTableClosed(net: Network, req: nat)
    requires TableClosed(net)
    ensures TableClosed(AllocTable(net, req))
  {
    var r := AllocTable(net, req);
    var size := |r.buckets|;
    var empty: seq<seq<Ref>> := seq(size, _ => []);
    assert r.buckets == RehashAll(net, net.buckets, empty);
    forall i, k | 0 <= i < size && 0 <= k < |r.buckets[i]|
      ensures r.buckets[i][k] in r.objs && r.objs[r.buckets[i][k]].kind == Logic
    {
      var x := r.buckets[i][k];
      assert x in r.buckets[i];
      RehashAllMembers(net, net.buckets, empty, i, x);
      assert empty[i] == [];
      var j :| 0 <= j < |net.buckets| && x in net.buckets[j];
      var l :| 0 <= l < |net.buckets[j]| && net.buckets[j][l] == x;
    }
  }

  /** `new_logic(fcode, h0, h1)`, that is `set_logic(NULL, fcode, h0, h1)`:
      a degenerate request returns an existing signal, a key already in the
      table returns that node, and otherwise one logic node is added; the
      output inversion is the one canonicalisation split off. */
  function NewLogic(net: Network, f: FCode, h0: Handle, h1: Handle): (r: Built)
    requires Ready(net) && HandleIn(net, h0) && HandleIn(net, h1)
    ensures Ready(r.net) && net.objs.Keys <= r.net.objs.Keys && HandleIn(r.net, r.handle)
  {
    var c := Canonicalize(f, h0, h1, Ids(net));
    match c
    case Folded(h) => Built(net, h)
    case Gate(g, a, b, inv) => Intern(net, g, a, b, inv)
  }

  /** The table probe of `new_logic` for a canonical key: the node already
      registered under it, or a new logic node. */
  function Intern(net: Network, g: FCode, a: Ref, b: Ref, inv: bool): (r: Built)
    requires Ready(net) && a in net.objs && b in net.objs
    ensures Ready(r.net) && net.objs.Keys <= r.net.objs.Keys && HandleIn(r.net, r.handle)
  {
    match Lookup(net, g, a, b)
    case Some(x) => Built(net, Handle(Some(x), inv))
    case None => Built(AddLogicNode(net, g, a, b), Handle(Some(net.nextRef), inv))
  }

  /** The handle `new_logic` returns is the canonical outcome: the folded
      signal, or a logic node with the canonical key carrying the split-off
      output inversion. */
  lemma NewLogicShape(net: Network, f: FCode, h0: Handle, h1: Handle)
    requires Ready(net) && HandleIn(net, h0) && HandleIn(net, h1)
    ensures var c := Canonicalize(f, h0, h1, Ids(net));
            var r := NewLogic(net, f, h0, h1);
            match c
            case Folded(h) => r == Built(net, h)
            case Gate(g, a, b, inv) =>
              && r.handle.inv == inv && r.handle.node.Some?
              && r.handle.node.value in r.net.objs
              && r.net.objs[r.handle.node.value].kind == Logic
              && Matches(r.net.objs[r.handle.node.value], g, a, b)
  {
    var c := Canonicalize(f, h0, h1, Ids(net));
    if c.Gate? {
      InternShape(net, c.fcode, c.in0, c.in1, c.inv);
    }
  }

  /** The probe returns a logic node with the key it was given. */
  lemma InternShape(net: Network, g: FCode, a: Ref, b: Ref, inv: bool)
    requires Ready(net) && a in net.objs && b in net.objs
    ensures var r := Intern(net, g, a, b, inv);
            && r.handle.inv == inv && r.handle.node.Some?
            && r.handle.node.value in r.net.objs
            && r.net.objs[r.handle.node.value].kind == Logic
            && Matches(r.net.objs[r.handle.node.value], g, a, b)
  {
    LookupIsLogic(net, g, a, b);
    if Lookup(net, g, a, b).None? {
      AddLogicNodeShape(net, g, a, b);
    }
  }

  /** A table hit is a logic node. */
  lemma LookupIsLogic(net: Network, g: FCode, a: Ref, b: Ref)
    requires TableClosed(net)
    ensures Lookup(net, g, a, b).Some? ==> net.objs[Lookup(net, g, a, b).value].kind == Logic
  {
    if Lookup(net, g, a, b).Some? {
      var idx := Hash(g, IdOf(net, a), IdOf(net, b)) % |net.buckets|;
      var x := Lookup(net, g, a, b).value;
      var k :| 0 <= k < |net.buckets[idx]| && net.buckets[idx][k] == x;
    }
  }

  /** The added node is a logic node with code `g` and fanins `a`, `b`. */
  lemma AddLogicNodeShape(net: Network, g: FCode, a: Ref, b: Ref)
    requires Ready(net) && a in net.objs && b in net.objs
    ensures var r := AddLogicNode(net, g, a, b);
            r.objs[net.nextRef].kind == Logic && Matches(r.objs[net.nextRef], g, a, b)
  {
  }

  /** Changing the code of a node outside the logic-node list keeps the
      invariant. */
  lemma SetCodeKeepsValid(net: Network, x: Ref, g: FCode)
    requires Valid(net) && x in net.objs && x !in net.lnodes
    ensures Valid(SetCode(net, x, g))
    ensures IoOk(net) ==> IoOk(SetCode(net, x, g))
    ensures forall y :: Registered(net, y) == Registered(SetCode(net, x, g), y)
  {
    var r := SetCode(net, x, g);
    assert forall y, p :: y in r.objs ==> Slot(r.objs[y], p) == Slot(net.objs[y], p);
    assert forall y :: y in r.objs ==> r.objs[y].fanouts == net.objs[y].fanouts;
    assert FanoutOk(r.objs);
    forall k | 0 <= k < |net.lnodes| ensures SameLogic(r.objs[net.lnodes[k]], net.objs[net.lnodes[k]]) {
      assert net.lnodes[k] != x;
    }
    ValidTransfer(net, r);
    if IoOk(net) {
      IoTransfer(net, r);
    }
  }

  /** Wiring a node outside the logic-node list keeps the invariant; only
      that node's key changes, and no id. */
  lemma WireKeepsValid(net: Network, n: Ref, g: FCode, a: Ref, b: Ref)
    requires Valid(net) && n in net.objs && a in net.objs && b in net.objs && n !in net.lnodes
    ensures Valid(Wire(net, n, g, a, b))
    ensures IoOk(net) ==> IoOk(Wire(net, n, g, a, b))
    ensures forall y :: Registered(net, y) == Registered(Wire(net, n, g, a, b), y)
  {
    var net1 := SetCode(net, n, g);
    SetCodeKeepsValid(net, n, g);
    var net2 := Connect(net1, Some(a), n, 0);
    ConnectKeepsValid(net1, Some(a), n, 0);
    ConnectKeepsValid(net2, Some(b), n, 1);
  }

  /** Wiring changes no id, and no other node's kind, code or fanins. */
  lemma WireKeepsOthers(net: Network, n: Ref, g: FCode, a: Ref, b: Ref)
    requires n in net.objs && a in net.objs && b in net.objs
    ensures forall y :: y in net.objs && y != n ==> SameLogic(Wire(net, n, g, a, b).objs[y], net.objs[y])
    ensures forall y :: y in net.objs ==> Wire(net, n, g, a, b).objs[y].id == net.objs[y].id
  {
    var net1 := SetCode(net, n, g);
    var net2 := Connect(net1, Some(a), n, 0);
    var r := Connect(net2, Some(b), n, 1);
    forall y | y in net.objs && y != n ensures SameLogic(r.objs[y], net.objs[y]) {
      assert Slot(r.objs[y], 0) == Slot(net2.objs[y], 0) == Slot(net1.objs[y], 0);
      assert Slot(r.objs[y], 1) == Slot(net2.objs[y], 1) == Slot(net1.objs[y], 1);
    }
  }

  /** `Wire` only reads and writes the node objects. */
  lemma WireFrame(x: Network, y: Network, n: Ref, g: FCode, a: Ref, b: Ref)
    requires n in x.objs && a in x.objs && b in x.objs
    requires y == x.(lnodes := y.lnodes, buckets := y.buckets, nextLimit := y.nextLimit)
    ensures Wire(y, n, g, a, b) == Wire(x, n, g, a, b).(lnodes := y.lnodes, buckets := y.buckets, nextLimit := y.nextLimit)
  {
  }

  /** The table of a network stays valid for a network that adds objects,
      keeps the key and id of every old one, and has the same lists. */
  lemma TableExtend(a: Network, b: Network)
    requires TableOk(a) && SlotsListed(a.objs)
    requires b.lnodes == a.lnodes && b.buckets == a.buckets
    requires forall y :: y in a.objs ==> y in b.objs && SameLogic(b.objs[y], a.objs[y]) && b.objs[y].id == a.objs[y].id
    ensures TableOk(b)
  {
    forall y | y in a.objs && a.objs[y].kind == Logic ensures KeyHash(b, y) == KeyHash(a, y) {
      if a.objs[y].fanin0.Some? { assert Slot(a.objs[y], 0).Some?; }
      if a.objs[y].fanin1.Some? { assert Slot(a.objs[y], 1).Some?; }
    }
    forall i, k | 0 <= i < |b.buckets| && 0 <= k < |b.buckets[i]|
      ensures b.buckets[i][k] in b.objs && b.objs[b.buckets[i][k]].kind == Logic
              && BucketOf(b, b.buckets[i][k]) == i
    {
      assert a.buckets[i][k] in a.objs;
    }
    forall k | 0 <= k < |b.lnodes| ensures b.lnodes[k] in b.buckets[BucketOf(b, b.lnodes[k])] {
      var x := a.lnodes[k];
      assert x in a.buckets[BucketOf(a, x)];
      var i :| 0 <= i < |a.buckets[BucketOf(a, x)]| && a.buckets[BucketOf(a, x)][i] == x;
    }
  }

  /** Adding a registered canonical node whose key no listed node has, to
      the logic-node list and at the head of its bucket, keeps the logic-node
      list and the table consistent. */
  lemma InsertKeepsValid(w: Network, n: Ref, g: FCode, a: Ref, b: Ref)
    requires Valid(w) && n !in w.lnodes
    requires Registered(w, n) && Canonical(w, n) && Matches(w.objs[n], g, a, b)
    requires forall k :: 0 <= k < |w.lnodes| ==> !Matches(w.objs[w.lnodes[k]], g, a, b)
    ensures var idx := Hash(g, IdOf(w, a), IdOf(w, b)) % |w.buckets|;
            Valid(Hook(w.(lnodes := w.lnodes + [n]), n, idx))
  {
    var idx := Hash(g, IdOf(w, a), IdOf(w, b)) % |w.buckets|;
    var w1 := w.(lnodes := w.lnodes + [n]);
    var r := Hook(w1, n, idx);
    InsertLnodesOk(w, n, g, a, b);
    InsertTableOk(w, n, g, a, b);
    assert forall y :: Registered(r, y) == Registered(w1, y);
    assert forall y :: y in r.objs ==> KeyOf(r.objs[y]) == KeyOf(w1.objs[y]);
  }

  /** The new node heads its key's bucket, and the table again holds exactly
      the listed logic nodes, each in its own bucket. */
  lemma InsertTableOk(w: Network, n: Ref, g: FCode, a: Ref, b: Ref)
    requires Valid(w) && n !in w.lnodes
    requires Registered(w, n) && Canonical(w, n) && Matches(w.objs[n], g, a, b)
    ensures var idx := Hash(g, IdOf(w, a), IdOf(w, b)) % |w.buckets|;
            TableOk(Hook(w.(lnodes := w.lnodes + [n]), n, idx))
  {
    InsertChainsPlaced(w, n, g, a, b);
    InsertListFound(w, n, g, a, b);
  }

  /** Every chain entry after the insertion is a listed logic node in its
      own bucket. */
  lemma InsertChainsPlaced(w: Network, n: Ref, g: FCode, a: Ref, b: Ref)
    requires Valid(w) && n !in w.lnodes
    requires Registered(w, n) && Canonical(w, n) && Matches(w.objs[n], g, a, b)
    ensures var idx := Hash(g, IdOf(w, a), IdOf(w, b)) % |w.buckets|;
            var r := Hook(w.(lnodes := w.lnodes + [n]), n, idx);
            Placed(r) && TableSound(r)
  {
    var idx := Hash(g, IdOf(w, a), IdOf(w, b)) % |w.buckets|;
    var r := Hook(w.(lnodes := w.lnodes + [n]), n, idx);
    assert KeyHash(w, n) == Hash(g, IdOf(w, a), IdOf(w, b));
    assert forall y :: IdOf(r, y) == IdOf(w, y);
    assert forall y :: y in w.objs ==> KeyHash(r, y) == KeyHash(w, y);
    forall i, k | 0 <= i < |r.buckets| && 0 <= k < |r.buckets[i]|
      ensures r.buckets[i][k] in r.objs && r.objs[r.buckets[i][k]].kind == Logic
              && BucketOf(r, r.buckets[i][k]) == i && r.buckets[i][k] in r.lnodes
    {
      if i == idx && k > 0 {
        assert r.buckets[i][k] == w.buckets[i][k - 1];
      }
    }
  }

  /** Every listed logic node after the insertion is in its bucket. */
  lemma InsertListFound(w: Network, n: Ref, g: FCode, a: Ref, b: Ref)
    requires Valid(w) && n !in w.lnodes
    requires Registered(w, n) && Canonical(w, n) && Matches(w.objs[n], g, a, b)
    ensures var idx := Hash(g, IdOf(w, a), IdOf(w, b)) % |w.buckets|;
            var r := Hook(w.(lnodes := w.lnodes + [n]), n, idx);
            && (forall k :: 0 <= k < |r.lnodes| ==> r.lnodes[k] in r.objs)
            && (forall k :: 0 <= k < |r.lnodes| ==> r.lnodes[k] in r.buckets[BucketOf(r, r.lnodes[k])])
  {
    var idx := Hash(g, IdOf(w, a), IdOf(w, b)) % |w.buckets|;
    var r := Hook(w.(lnodes := w.lnodes + [n]), n, idx);
    assert KeyHash(w, n) == Hash(g, IdOf(w, a), IdOf(w, b));
    assert forall y :: y in w.objs ==> KeyHash(r, y) == KeyHash(w, y);
    forall k | 0 <= k < |r.lnodes| ensures r.lnodes[k] in r.buckets[BucketOf(r, r.lnodes[k])] {
      if k < |w.lnodes| {
        var x := w.lnodes[k];
        assert x in w.buckets[BucketOf(w, x)];
      }
    }
  }

  lemma InsertLnodesOk(w: Network, n: Ref, g: FCode, a: Ref, b: Ref)
    requires LnodesOk(w) && n !in w.lnodes
    requires Registered(w, n) && Canonical(w, n) && Matches(w.objs[n], g, a, b)
    requires forall k :: 0 <= k < |w.lnodes| ==> !Matches(w.objs[w.lnodes[k]], g, a, b)
    ensures LnodesOk(w.(lnodes := w.lnodes + [n]))
  {
    var l := w.lnodes + [n];
    AppendNoDup(w.lnodes, n);
    forall j, k | 0 <= j < k < |l| ensures KeyOf(w.objs[l[j]]) != KeyOf(w.objs[l[k]]) {
      if k == |w.lnodes| {
        assert Canonical(w, l[j]);
        assert !Matches(w.objs[w.lnodes[j]], g, a, b);
      }
    }
  }

  /** The resized table is consistent with the logic-node list. */
  lemma TableKeepsTable(net: Network)
    requires TableOk(net)
    ensures TableClosed(net) && TableOk(Table(net))
  {
    if |net.lnodes| + 1 >= net.nextLimit {
      AllocTableKeepsTable(net, |net.buckets| * 2);
    }
  }

  /** The network `AddLogicNode` works on before the insertion: the new
      node allocated, registered and wired, and the table possibly resized. */
  function Wired(net: Network, g: FCode, a: Ref, b: Ref): (w: Network)
    requires Ready(net) && a in net.objs && b in net.objs
  {
    var t := Table(net);
    Wire(Allocate(net), net.nextRef, g, a, b).(buckets := t.buckets, nextLimit := t.nextLimit)
  }

  /** `AddLogicNode` is the insertion into `Wired`. */
  lemma AddLogicNodeIsInsert(net: Network, g: FCode, a: Ref, b: Ref)
    requires Ready(net) && a in net.objs && b in net.objs
    ensures var w := Wired(net, g, a, b);
            AddLogicNode(net, g, a, b)
            == Hook(w.(lnodes := w.lnodes + [net.nextRef]), net.nextRef,
                    Hash(g, IdOf(w, a), IdOf(w, b)) % |w.buckets|)
  {
    var n := net.nextRef;
    var t := Table(net);
    var net2 := Allocate(net);
    var net4 := net2.(lnodes := net2.lnodes + [n], buckets := t.buckets, nextLimit := t.nextLimit);
    WireFrame(net2, net4, n, g, a, b);
  }

  /** Allocating, registering and wiring the new node keeps the invariant. */
  lemma AllocWireValid(net: Network, g: FCode, a: Ref, b: Ref)
    requires Valid(net) && a in net.objs && b in net.objs
    ensures ObjsBounded(net) && PoolBounded(net)
    ensures net.nextRef !in net.lnodes
    ensures var w0 := Wire(Allocate(net), net.nextRef, g, a, b);
            Valid(w0) && (IoOk(net) ==> IoOk(w0)) && Registered(w0, net.nextRef)
  {
    ValidClosed(net);
    var n := net.nextRef;
    var net2 := Allocate(net);
    AllocRegKeepsValid(net, Logic);
    assert net2 == RegNode(AllocObj(net, Logic), n);
    assert n !in net.lnodes by {
      forall k | 0 <= k < |net.lnodes| ensures net.lnodes[k] != n {
        assert Registered(net, net.lnodes[k]);
      }
    }
    WireKeepsValid(net2, n, g, a, b);
  }

  /** Allocating, registering and wiring the new node changes no old node's
      key or id, and gives the new node the key `(g, a, b)`. */
  lemma AllocWireNodes(net: Network, g: FCode, a: Ref, b: Ref)
    requires Ready(net) && a in net.objs && b in net.objs
    ensures var w0 := Wire(Allocate(net), net.nextRef, g, a, b);
            && (forall y :: y in net.objs ==> y in w0.objs && SameLogic(w0.objs[y], net.objs[y])
                                              && w0.objs[y].id == net.objs[y].id)
            && w0.objs[net.nextRef].kind == Logic && Matches(w0.objs[net.nextRef], g, a, b)
            && w0.lnodes == net.lnodes && w0.buckets == net.buckets
  {
    WireKeepsOthers(Allocate(net), net.nextRef, g, a, b);
  }

  /** `Wired` is valid, keeps every old node's key, and holds the new node
      registered and canonical with key `(g, a, b)`. */
  lemma WiredFacts(net: Network, g: FCode, a: Ref, b: Ref)
    requires Valid(net) && a in net.objs && b in net.objs
    requires !Bit(g, 0) && IdOf(net, a) < IdOf(net, b)
    ensures Ready(net)
    ensures var w := Wired(net, g, a, b);
            && Valid(w) && (IoOk(net) ==> IoOk(w))
            && w.lnodes == net.lnodes && net.nextRef !in net.lnodes
            && (forall y :: y in net.objs ==> y in w.objs && SameLogic(w.objs[y], net.objs[y]))
            && Registered(w, net.nextRef) && Canonical(w, net.nextRef)
            && Matches(w.objs[net.nextRef], g, a, b)
  {
    ValidClosed(net);
    AllocWireValid(net, g, a, b);
    AllocWireNodes(net, g, a, b);
    var t := Table(net);
    var w := Wired(net, g, a, b);
    TableKeepsTable(net);
    TableExtend(t, w);
    TableSwap(Wire(Allocate(net), net.nextRef, g, a, b), w);
    assert IdOf(w, a) == IdOf(net, a) && IdOf(w, b) == IdOf(net, b);
  }

  /** A network that differs from a valid one only in a table that is
      consistent with it is valid. */
  lemma TableSwap(a: Network, b: Network)
    requires Valid(a) && TableOk(b)
    requires b == a.(buckets := b.buckets, nextLimit := b.nextLimit)
    ensures Valid(b) && (IoOk(a) ==> IoOk(b))
    ensures forall y :: Registered(b, y) == Registered(a, y)
  {
    assert forall y :: IdOf(b, y) == IdOf(a, y);
  }

  /** Adding a node for a canonical key the table does not hold keeps the
      invariant and the registration of the input and output lists. */
  lemma AddLogicNodeKeepsValid(net: Network, g: FCode, a: Ref, b: Ref)
    requires Valid(net) && a in net.objs && b in net.objs
    requires !Bit(g, 0) && IdOf(net, a) < IdOf(net, b)
    requires Lookup(net, g, a, b).None?
    ensures Ready(net)
    ensures Valid(AddLogicNode(net, g, a, b))
    ensures IoOk(net) ==> IoOk(AddLogicNode(net, g, a, b))
  {
    WiredFacts(net, g, a, b);
    var w := Wired(net, g, a, b);
    LookupExact(net, g, a, b);
    assert forall k :: 0 <= k < |w.lnodes| ==> !Matches(w.objs[w.lnodes[k]], g, a, b) by {
      forall k | 0 <= k < |w.lnodes| ensures !Matches(w.objs[w.lnodes[k]], g, a, b) {
        assert SameLogic(w.objs[net.lnodes[k]], net.objs[net.lnodes[k]]);
      }
    }
    InsertKeepsValid(w, net.nextRef, g, a, b);
    AddLogicNodeIsInsert(net, g, a, b);
    if IoOk(net) {
      var r := AddLogicNode(net, g, a, b);
      assert forall y :: Registered(w, y) ==> Registered(r, y);
      IoTransfer(w, r);
    }
  }

  /** The operand nodes of a request are registered objects. */
  predicate Operand(net: Network, h: Handle) {
    h.node.Some? ==> Registered(net, h.node.value)
  }

  /** With registered operands the canonical key orders its fanins strictly
      by id. */
  lemma CanonicalKeyStrict(net: Network, f: FCode, h0: Handle, h1: Handle)
    requires Operand(net, h0) && Operand(net, h1)
    ensures var c := Canonicalize(f, h0, h1, Ids(net));
            c.Gate? ==> !Bit(c.fcode, 0) && IdOf(net, c.in0) < IdOf(net, c.in1)
                        && c.in0 in net.objs && c.in1 in net.objs
  {
    var c := Canonicalize(f, h0, h1, Ids(net));
    if c.Gate? {
      RegisteredIdsDiffer(net, h0.node.value, h1.node.value);
    }
  }

  /** `new_logic` keeps the invariant and the registration of the input and
      output lists. */
  lemma NewLogicKeepsValid(net: Network, f: FCode, h0: Handle, h1: Handle)
    requires Valid(net) && Operand(net, h0) && Operand(net, h1)
    ensures Ready(net) && HandleIn(net, h0) && HandleIn(net, h1)
    ensures Valid(NewLogic(net, f, h0, h1).net)
    ensures IoOk(net) ==> IoOk(NewLogic(net, f, h0, h1).net)
  {
    ValidClosed(net);
    var c := Canonicalize(f, h0, h1, Ids(net));
    CanonicalKeyStrict(net, f, h0, h1);
    if c.Gate? {
      InternKeepsValid(net, c.fcode, c.in0, c.in1, c.inv);
    }
  }

  /** The probe keeps the invariant and the input and output lists. */
  lemma InternKeepsValid(net: Network, g: FCode, a: Ref, b: Ref, inv: bool)
    requires Valid(net) && Ready(net) && a in net.objs && b in net.objs
    requires !Bit(g, 0) && IdOf(net, a) < IdOf(net, b)
    ensures Valid(Intern(net, g, a, b, inv).net)
    ensures IoOk(net) ==> IoOk(Intern(net, g, a, b, inv).net)
  {
    if Lookup(net, g, a, b).None? {
      AddLogicNodeKeepsValid(net, g, a, b);
    }
  }

  /** `new_logic` computes the requested function: a degenerate request
      returns, without touching the network, a signal with that value; any
      other returns a logic node whose gate over its fanins, with the
      returned inversion, has that value. */
  lemma NewLogicSound(net: Network, f: FCode, h0: Handle, h1: Handle)
    requires Ready(net) && HandleIn(net, h0) && HandleIn(net, h1)
    ensures var r := NewLogic(net, f, h0, h1);
            if h0.node.Some? && h1.node.Some? && h0.node != h1.node
            then forall v :: GateVal(r.net, r.handle, v) == Apply(f, HVal(h0, v), HVal(h1, v))
            else r.net == net && forall v :: HVal(r.handle, v) == Apply(f, HVal(h0, v), HVal(h1, v))
  {
    NewLogicShape(net, f, h0, h1);
    var c := Canonicalize(f, h0, h1, Ids(net));
    var r := NewLogic(net, f, h0, h1);
    forall v ensures CanonVal(c, v) == Apply(f, HVal(h0, v), HVal(h1, v)) {
      CanonicalizeSound(f, h0, h1, Ids(net), v);
    }
    if c.Gate? {
      GateValMatches(r.net, r.handle, c.fcode, c.in0, c.in1, c.inv);
    }
  }

  /** A handle to a node that matches a canonical key computes that key's
      gate. */
  lemma GateValMatches(net: Network, h: Handle, g: FCode, a: Ref, b: Ref, inv: bool)
    requires h.inv == inv && h.node.Some? && h.node.value in net.objs
    requires Matches(net.objs[h.node.value], g, a, b)
    ensures forall v :: GateVal(net, h, v) == CanonVal(Gate(g, a, b, inv), v)
  {
  }

  /** Structural hashing: for distinct operands, the network is left
      unchanged exactly when a listed logic node already has the canonical
      key, and then that node is returned. */
  lemma NewLogicShares(net: Network, f: FCode, h0: Handle, h1: Handle)
    requires Valid(net) && HandleIn(net, h0) && HandleIn(net, h1)
    requires h0.node.Some? && h1.node.Some? && h0.node != h1.node
    ensures Ready(net)
    ensures var c := Canonicalize(f, h0, h1, Ids(net));
            var r := NewLogic(net, f, h0, h1);
            && c.Gate?
            && ((exists k :: 0 <= k < |net.lnodes| && Matches(net.objs[net.lnodes[k]], c.fcode, c.in0, c.in1))
                <==> r.net == net)
            && (r.net == net ==> r.handle.node.Some? && r.handle.node.value in net.lnodes)
  {
    ValidClosed(net);
    var c := Canonicalize(f, h0, h1, Ids(net));
    LookupExact(net, c.fcode, c.in0, c.in1);
  }

  /** Otherwise exactly one node, the next fresh object, is added: it joins
      the logic-node list, takes the smallest free id and heads the bucket
      of its key. */
  lemma NewLogicAdds(net: Network, f: FCode, h0: Handle, h1: Handle)
    requires Ready(net) && HandleIn(net, h0) && HandleIn(net, h1)
    ensures var r := NewLogic(net, f, h0, h1);
            r.net != net ==>
              && net.nextRef !in net.objs && r.handle.node == Some(net.nextRef)
              && r.net.lnodes == net.lnodes + [net.nextRef]
              && r.net.objs.Keys == net.objs.Keys + {net.nextRef}
              && r.net.objs[net.nextRef].id == Some(Avail(net.nodePool))
              && r.net.nodePool == net.nodePool + {Avail(net.nodePool)}
              && r.net.buckets[BucketOf(r.net, net.nextRef)][0] == net.nextRef
  {
    var c := Canonicalize(f, h0, h1, Ids(net));
    if c.Gate? {
      InternAdds(net, c.fcode, c.in0, c.in1, c.inv);
    }
  }

  /** A probe that changes the network adds the next fresh object, with
      the smallest free id, to the list and at the head of its bucket. */
  lemma InternAdds(net: Network, g: FCode, a: Ref, b: Ref, inv: bool)
    requires Ready(net) && a in net.objs && b in net.objs
    ensures var r := Intern(net, g, a, b, inv);
            r.net != net ==>
              && net.nextRef !in net.objs && r.handle.node == Some(net.nextRef)
              && r.net.lnodes == net.lnodes + [net.nextRef]
              && r.net.objs.Keys == net.objs.Keys + {net.nextRef}
              && r.net.objs[net.nextRef].id == Some(Avail(net.nodePool))
              && r.net.nodePool == net.nodePool + {Avail(net.nodePool)}
              && r.net.buckets[BucketOf(r.net, net.nextRef)][0] == net.nextRef
  {
    if Lookup(net, g, a, b).None? {
      AddLogicNodeNode(net, g, a, b);
    }
  }

  /** The node `AddLogicNode` adds: the smallest free id, and the head of
      the bucket of its key. */
  lemma AddLogicNodeNode(net: Network, g: FCode, a: Ref, b: Ref)
    requires Ready(net) && a in net.objs && b in net.objs
    ensures var r := AddLogicNode(net, g, a, b);
            && r.objs[net.nextRef].id == Some(Avail(net.nodePool))
            && r.nodePool == net.nodePool + {Avail(net.nodePool)}
            && r.buckets[BucketOf(r, net.nextRef)][0] == net.nextRef
  {
    var n := net.nextRef;
    var r := AddLogicNode(net, g, a, b);
    AddLogicNodeShape(net, g, a, b);
    var net2 := Allocate(net);
    assert net2 == RegNode(AllocObj(net, Logic), n);
    var t := Table(net);
    var net4 := net2.(lnodes := net2.lnodes + [n], buckets := t.buckets, nextLimit := t.nextLimit);
    var net7 := Wire(net4, n, g, a, b);
    assert r == Hook(net7, n, Hash(g, IdOf(net7, a), IdOf(net7, b)) % |net7.buckets|);
    assert KeyHash(r, n) == Hash(g, IdOf(net7, a), IdOf(net7, b));
  }

  /** A chain holding a node with the key is searched successfully. */
  lemma {:induction false} FindInChainFinds(objs: map<Ref, Node>, chain: seq<Ref>, f: FCode, a: Ref, b: Ref, k: nat)
    requires k < |chain| && chain[k] in objs && Matches(objs[chain[k]], f, a, b)
    ensures FindInChain(objs, chain, f, a, b).Some?
    decreases k
  {
    if !(chain[0] in objs && Matches(objs[chain[0]], f, a, b)) {
      FindInChainFinds(objs, chain[1..], f, a, b, k - 1);
    }
  }

  /** Two listed logic nodes with the same key are the same node. */
  lemma KeysUnique(net: Network, x: Ref, y: Ref, g: FCode, a: Ref, b: Ref)
    requires LnodesOk(net) && x in net.lnodes && y in net.lnodes
    requires x in net.objs && y in net.objs
    requires Matches(net.objs[x], g, a, b) && Matches(net.objs[y], g, a, b)
    ensures x == y
  {
    var i :| 0 <= i < |net.lnodes| && net.lnodes[i] == x;
    var j :| 0 <= j < |net.lnodes| && net.lnodes[j] == y;
    assert KeyOf(net.objs[x]) == KeyOf(net.objs[y]);
  }

  /** In a valid network, probing the key of a listed logic node finds it. */
  lemma LookupFindsListed(net: Network, x: Ref, g: FCode, a: Ref, b: Ref)
    requires Valid(net) && x in net.lnodes && x in net.objs && Matches(net.objs[x], g, a, b)
    ensures Lookup(net, g, a, b) == Some(x)
  {
    var i :| 0 <= i < |net.lnodes| && net.lnodes[i] == x;
    assert KeyHash(net, x) == Hash(g, IdOf(net, a), IdOf(net, b));
    var chain := net.buckets[BucketOf(net, x)];
    var k :| 0 <= k < |chain| && chain[k] == x;
    FindInChainFinds(net.objs, chain, g, a, b, k);
    LookupExact(net, g, a, b);
    KeysUnique(net, x, Lookup(net, g, a, b).value, g, a, b);
  }

  /** The canonical outcome only reads the ids of the operand nodes. */
  lemma CanonicalizeReadsIds(f: FCode, h0: Handle, h1: Handle, n1: Network, n2: Network)
    requires h0.node.Some? ==> IdOf(n1, h0.node.value) == IdOf(n2, h0.node.value)
    requires h1.node.Some? ==> IdOf(n1, h1.node.value) == IdOf(n2, h1.node.value)
    ensures Canonicalize(f, h0, h1, Ids(n1)) == Canonicalize(f, h0, h1, Ids(n2))
  {
  }

  /** Adding a node changes no old object's id. */
  lemma AddLogicNodeKeepsIds(net: Network, g: FCode, a: Ref, b: Ref)
    requires Ready(net) && a in net.objs && b in net.objs
    ensures forall y :: y in net.objs ==> IdOf(AddLogicNode(net, g, a, b), y) == IdOf(net, y)
  {
    AllocWireNodes(net, g, a, b);
    AddLogicNodeIsInsert(net, g, a, b);
  }

  /** Asking again for the same gate returns the same handle and leaves the
      network as it is. */
  lemma NewLogicIdempotent(net: Network, f: FCode, h0: Handle, h1: Handle)
    requires Valid(net) && Operand(net, h0) && Operand(net, h1)
    ensures Ready(net) && HandleIn(net, h0) && HandleIn(net, h1)
    ensures var r := NewLogic(net, f, h0, h1);
            NewLogic(r.net, f, h0, h1) == r
  {
    NewLogicKeepsValid(net, f, h0, h1);
    var c := Canonicalize(f, h0, h1, Ids(net));
    CanonicalKeyStrict(net, f, h0, h1);
    if c.Gate? {
      var r := Intern(net, c.fcode, c.in0, c.in1, c.inv);
      InternIdempotent(net, c.fcode, c.in0, c.in1, c.inv);
      InternKeepsIds(net, c.fcode, c.in0, c.in1, c.inv);
      CanonicalizeReadsIds(f, h0, h1, net, r.net);
    }
  }

  /** Probing again for the same key finds what the first probe
      returned. */
  lemma InternIdempotent(net: Network, g: FCode, a: Ref, b: Ref, inv: bool)
    requires Valid(net) && Ready(net) && a in net.objs && b in net.objs
    requires !Bit(g, 0) && IdOf(net, a) < IdOf(net, b)
    ensures var r := Intern(net, g, a, b, inv);
            Intern(r.net, g, a, b, inv) == r
  {
    if Lookup(net, g, a, b).None? {
      var x := net.nextRef;
      var n2 := AddLogicNode(net, g, a, b);
      AddLogicNodeKeepsValid(net, g, a, b);
      AddLogicNodeShape(net, g, a, b);
      assert x in n2.lnodes;
      LookupFindsListed(n2, x, g, a, b);
    }
  }

  /** The probe changes no old object's id. */
  lemma InternKeepsIds(net: Network, g: FCode, a: Ref, b: Ref, inv: bool)
    requires Ready(net) && a in net.objs && b in net.objs
    ensures forall y :: y in net.objs ==> IdOf(Intern(net, g, a, b, inv).net, y) == IdOf(net, y)
  {
    if Lookup(net, g, a, b).None? {
      AddLogicNodeKeepsIds(net, g, a, b);
    }
  }

  /** Exchanging two distinct operands, together with the inputs of the
      requested code, gives the same gate. */
  lemma NewLogicCommutes(net: Network, f: FCode, h0: Handle, h1: Handle)
    requires Ready(net) && Operand(net, h0) && Operand(net, h1)
    requires h0.node.Some? && h1.node.Some? && h0.node != h1.node
    ensures HandleIn(net, h0) && HandleIn(net, h1)
    ensures NewLogic(net, SwapCode(f), h1, h0) == NewLogic(net, f, h0, h1)
  {
    RegisteredIdsDiffer(net, h0.node.value, h1.node.value);
    CanonicalizeCommutes(f, h0, h1, Ids(net));
  }

  /** `new_and(h0, h1)`: code 0x8. */
  function NewAnd(net: Network, h0: Handle, h1: Handle): (r: Built)
    requires Ready(net) && HandleIn(net, h0) && HandleIn(net, h1)
    ensures Ready(r.net) && net.objs.Keys <= r.net.objs.Keys && HandleIn(r.net, r.handle)
    ensures if h0.node.Some? && h1.node.Some? && h0.node != h1.node
            then forall v :: GateVal(r.net, r.handle, v) == (HVal(h0, v) && HVal(h1, v))
            else r.net == net && forall v :: HVal(r.handle, v) == (HVal(h0, v) && HVal(h1, v))
  {
    NewLogicSound(net, AndCode, h0, h1);
    NewLogic(net, AndCode, h0, h1)
  }

  /** `new_or(h0, h1)`: code 0xe. */
  function NewOr(net: Network, h0: Handle, h1: Handle): (r: Built)
    requires Ready(net) && HandleIn(net, h0) && HandleIn(net, h1)
    ensures Ready(r.net) && net.objs.Keys <= r.net.objs.Keys && HandleIn(r.net, r.handle)
    ensures if h0.node.Some? && h1.node.Some? && h0.node != h1.node
            then forall v :: GateVal(r.net, r.handle, v) == (HVal(h0, v) || HVal(h1, v))
            else r.net == net && forall v :: HVal(r.handle, v) == (HVal(h0, v) || HVal(h1, v))
  {
    NewLogicSound(net, OrCode, h0, h1);
    NewLogic(net, OrCode, h0, h1)
  }

  /** `new_xor(h0, h1)`: code 0x6. */
  function NewXor(net: Network, h0: Handle, h1: Handle): (r: Built)
    requires Ready(net) && HandleIn(net, h0) && HandleIn(net, h1)
    ensures Ready(r.net) && net.objs.Keys <= r.net.objs.Keys && HandleIn(r.net, r.handle)
    ensures if h0.node.Some? && h1.node.Some? && h0.node != h1.node
            then forall v :: GateVal(r.net, r.handle, v) == (HVal(h0, v) != HVal(h1, v))
            else r.net == net && forall v :: HVal(r.handle, v) == (HVal(h0, v) != HVal(h1, v))
  {
    NewLogicSound(net, XorCode, h0, h1);
    NewLogic(net, XorCode, h0, h1)
  }

  /** Every handle of the list names an object of the network. */
  predicate AllIn(net: Network, hs: seq<Handle>) {
    forall k :: 0 <= k < |hs| ==> HandleIn(net, hs[k])
  }

  /** The order in which a balanced tree combines list positions. */
  datatype Shape = Leaf(pos: nat) | Join(left: Shape, right: Shape)

  /** The list positions a shape uses, left to right. */
  function Leaves(s: Shape): seq<nat> {
    match s
    case Leaf(k) => [k]
    case Join(l, r) => Leaves(l) + Leaves(r)
  }

  /** Every position of the shape is below `n`. */
  predicate Within(s: Shape, n: nat) {
    forall k :: 0 <= k < |Leaves(s)| ==> Leaves(s)[k] < n
  }

  /** Two shapes within bounds below `n` join within `n`. */
  lemma WithinJoin(l: Shape, r: Shape, nl: nat, nr: nat, n: nat)
    requires Within(l, nl) && Within(r, nr) && nl <= n && nr <= n
    ensures Within(Join(l, r), n)
  {
    var s := Leaves(Join(l, r));
    forall k | 0 <= k < |s| ensures s[k] < n {
      if k < |Leaves(l)| {
        assert s[k] == Leaves(l)[k];
      } else {
        assert s[k] == Leaves(r)[k - |Leaves(l)|];
      }
    }
  }

  /** The gates of a shape built bottom-up, left subtree first, each with
      `new_logic(f, left, right)`. */
  function Build(net: Network, f: FCode, s: Shape, hs: seq<Handle>): (r: Built)
    requires Ready(net) && AllIn(net, hs) && Within(s, |hs|)
    ensures Ready(r.net) && net.objs.Keys <= r.net.objs.Keys && HandleIn(r.net, r.handle)
    decreases s
  {
    match s
    case Leaf(k) =>
      assert Leaves(s)[0] == k;
      Built(net, hs[k])
    case Join(l, rt) =>
      assert forall k :: 0 <= k < |Leaves(l)| ==> Leaves(l)[k] == Leaves(s)[k];
      assert forall k :: 0 <= k < |Leaves(rt)| ==> Leaves(rt)[k] == Leaves(s)[|Leaves(l)| + k];
      var a := Build(net, f, l, hs);
      var b := Build(a.net, f, rt, hs);
      NewLogic(b.net, f, a.handle, b.handle)
  }

  /** Both parts of a shape within bounds are within them. */
  lemma WithinSplit(l: Shape, r: Shape, n: nat)
    requires Within(Join(l, r), n)
    ensures Within(l, n) && Within(r, n)
  {
    var s := Join(l, r);
    assert forall k :: 0 <= k < |Leaves(l)| ==> Leaves(l)[k] == Leaves(s)[k];
    assert forall k :: 0 <= k < |Leaves(r)| ==> Leaves(r)[k] == Leaves(s)[|Leaves(l)| + k];
  }

  /** One step of `Build` at a join: left subtree, right subtree, then the
      gate over them. */
  lemma JoinUnfolds(net: Network, f: FCode, ls: Shape, rs: Shape, hs: seq<Handle>)
    requires Ready(net) && AllIn(net, hs) && Within(Join(ls, rs), |hs|)
    ensures Within(ls, |hs|) && Within(rs, |hs|)
    ensures Build(net, f, Join(ls, rs), hs) ==
      (var l := Build(net, f, ls, hs);
       var r := Build(l.net, f, rs, hs);
       NewLogic(r.net, f, l.handle, r.handle))
  {
    var s := Join(ls, rs);
    assert forall k :: 0 <= k < |Leaves(ls)| ==> Leaves(ls)[k] == Leaves(s)[k];
    assert forall k :: 0 <= k < |Leaves(rs)| ==> Leaves(rs)[k] == Leaves(s)[|Leaves(ls)| + k];
  }

  /** The shape `make_tree(fcode, start, num, list)` follows as written: the
      base cases read positions 0 and 1 whatever `start` is. */
  function ShapeAsWritten(start: nat, num: nat): (s: Shape)
    requires num >= 1
    ensures Within(s, if num <= 2 then num else start + num)
    decreases num
  {
    if num == 1 then Leaf(0)
    else if num == 2 then Join(Leaf(0), Leaf(1))
    else
      var nh := num / 2;
      var l := ShapeAsWritten(start, nh);
      var r := ShapeAsWritten(start + nh, num - nh);
      WithinJoin(l, r, if nh <= 2 then nh else start + nh, if num - nh <= 2 then num - nh else start + num, start + num);
      Join(l, r)
  }

  /** The shape with the base cases reading `start` and `start + 1`. */
  function TreeShape(start: nat, num: nat): (s: Shape)
    requires num >= 1
    ensures Within(s, start + num)
    decreases num
  {
    if num == 1 then Leaf(start)
    else if num == 2 then Join(Leaf(start), Leaf(start + 1))
    else
      var nh := num / 2;
      var l := TreeShape(start, nh);
      var r := TreeShape(start + nh, num - nh);
      WithinJoin(l, r, start + nh, start + num, start + num);
      Join(l, r)
  }

  /** The corrected tree uses every position from `start` on exactly once,
      in order. */
  lemma {:induction false} TreeShapeLeaves(start: nat, num: nat)
    requires num >= 1
    ensures Leaves(TreeShape(start, num)) == seq(num, i => start + i)
    decreases num
  {
    if num > 2 {
      var nh := num / 2;
      TreeShapeLeaves(start, nh);
      TreeShapeLeaves(start + nh, num - nh);
    }
  }

  /** As written, a list of three uses position 0 twice and never position
      2. */
  lemma ShapeAsWrittenDropsLast()
    ensures Leaves(ShapeAsWritten(0, 3)) == [0, 0, 1]
  {
  }

  /** `make_tree(fcode, start, num, list)` as written: the gates of its
      recursion, in the order it creates them. */
  function MakeTreeAsWritten(net: Network, f: FCode, start: nat, num: nat, hs: seq<Handle>): (r: Built)
    requires Ready(net) && AllIn(net, hs) && 1 <= num && start + num <= |hs|
    ensures Ready(r.net) && net.objs.Keys <= r.net.objs.Keys && HandleIn(r.net, r.handle)
  {
    Build(net, f, ShapeAsWritten(start, num), hs)
  }

  /** `make_tree` with the base cases reading from `start`. */
  function MakeTree(net: Network, f: FCode, start: nat, num: nat, hs: seq<Handle>): (r: Built)
    requires Ready(net) && AllIn(net, hs) && 1 <= num && start + num <= |hs|
    ensures Ready(r.net) && net.objs.Keys <= r.net.objs.Keys && HandleIn(r.net, r.handle)
  {
    Build(net, f, TreeShape(start, num), hs)
  }

  /** A built tree reads the handle list only at its leaves. */
  lemma {:induction false} BuildReadsLeaves(net: Network, f: FCode, s: Shape, hs: seq<Handle>, hs': seq<Handle>)
    requires Ready(net) && AllIn(net, hs) && AllIn(net, hs') && Within(s, |hs|) && Within(s, |hs'|)
    requires forall k :: 0 <= k < |Leaves(s)| ==> hs[Leaves(s)[k]] == hs'[Leaves(s)[k]]
    ensures Build(net, f, s, hs) == Build(net, f, s, hs')
    decreases s
  {
    match s
    case Leaf(k) =>
      assert Leaves(s)[0] == k;
    case Join(ls, rs) =>
      JoinUnfolds(net, f, ls, rs, hs);
      JoinUnfolds(net, f, ls, rs, hs');
      assert forall k :: 0 <= k < |Leaves(ls)| ==> Leaves(ls)[k] == Leaves(s)[k];
      assert forall k :: 0 <= k < |Leaves(rs)| ==> Leaves(rs)[k] == Leaves(s)[|Leaves(ls)| + k];
      BuildReadsLeaves(net, f, ls, hs, hs');
      var l := Build(net, f, ls, hs);
      BuildReadsLeaves(l.net, f, rs, hs, hs');
  }

  /** As written, the gate built for a list of three does not depend on the
      third handle at all. */
  lemma MakeTreeAsWrittenIgnoresThird(net: Network, f: FCode, hs: seq<Handle>, h: Handle)
    requires Ready(net) && AllIn(net, hs) && |hs| == 3 && HandleIn(net, h)
    ensures AllIn(net, hs[2 := h])
    ensures MakeTreeAsWritten(net, f, 0, 3, hs) == MakeTreeAsWritten(net, f, 0, 3, hs[2 := h])
  {
    ShapeAsWrittenDropsLast();
    BuildReadsLeaves(net, f, ShapeAsWritten(0, 3), hs, hs[2 := h]);
  }

  /** `new_and(list)`, `new_or(list)` and `new_xor(list)`: a balanced tree
      over the whole list. */
  function NewAndList(net: Network, hs: seq<Handle>): (r: Built)
    requires Ready(net) && AllIn(net, hs) && |hs| >= 1
    ensures Ready(r.net) && net.objs.Keys <= r.net.objs.Keys && HandleIn(r.net, r.handle)
  {
    MakeTree(net, AndCode, 0, |hs|, hs)
  }

  function NewOrList(net: Network, hs: seq<Handle>): (r: Built)
    requires Ready(net) && AllIn(net, hs) && |hs| >= 1
    ensures Ready(r.net) && net.objs.Keys <= r.net.objs.Keys && HandleIn(r.net, r.handle)
  {
    MakeTree(net, OrCode, 0, |hs|, hs)
  }

  function NewXorList(net: Network, hs: seq<Handle>): (r: Built)
    requires Ready(net) && AllIn(net, hs) && |hs| >= 1
    ensures Ready(r.net) && net.objs.Keys <= r.net.objs.Keys && HandleIn(r.net, r.handle)
  {
    MakeTree(net, XorCode, 0, |hs|, hs)
  }

  /** The values of the handles a shape reads, left to right. */
  function LeafVals(s: Shape, hs: seq<Handle>, v: Valuation): seq<bool>
    requires Within(s, |hs|)
  {
    seq(|Leaves(s)|, k requires 0 <= k < |Leaves(s)| => HVal(hs[Leaves(s)[k]], v))
  }

  lemma LeafValsJoin(l: Shape, r: Shape, hs: seq<Handle>, v: Valuation)
    requires Within(Join(l, r), |hs|)
    ensures Within(l, |hs|) && Within(r, |hs|)
    ensures LeafVals(Join(l, r), hs, v) == LeafVals(l, hs, v) + LeafVals(r, hs, v)
  {
    WithinSplit(l, r, |hs|);
    var s := Join(l, r);
    assert forall k :: 0 <= k < |Leaves(l)| ==> Leaves(l)[k] == Leaves(s)[k];
    assert forall k :: 0 <= k < |Leaves(r)| ==> Leaves(r)[k] == Leaves(s)[|Leaves(l)| + k];
  }

  /** The value a shape stands for: each leaf reads its handle, each join
      applies `f` to the values of its two parts. */
  function ShapeVal(f: FCode, s: Shape, hs: seq<Handle>, v: Valuation): bool
    requires Within(s, |hs|)
    decreases s
  {
    match s
    case Leaf(k) =>
      assert Leaves(s)[0] == k;
      HVal(hs[k], v)
    case Join(l, rt) =>
      WithinSplit(l, rt, |hs|);
      Apply(f, ShapeVal(f, l, hs, v), ShapeVal(f, rt, hs, v))
  }

  /** A tree of ANDs is true exactly when every value it reads is. */
  lemma {:induction false} ShapeValAnd(s: Shape, hs: seq<Handle>, v: Valuation)
    requires Within(s, |hs|)
    ensures ShapeVal(AndCode, s, hs, v) == (false !in LeafVals(s, hs, v))
    decreases s
  {
    match s
    case Leaf(k) =>
      assert Leaves(s)[0] == k;
      assert LeafVals(s, hs, v) == [HVal(hs[k], v)];
    case Join(l, rt) =>
      LeafValsJoin(l, rt, hs, v);
      ShapeValAnd(l, hs, v);
      ShapeValAnd(rt, hs, v);
  }

  /** A tree of ORs is true exactly when some value it reads is. */
  lemma {:induction false} ShapeValOr(s: Shape, hs: seq<Handle>, v: Valuation)
    requires Within(s, |hs|)
    ensures ShapeVal(OrCode, s, hs, v) == (true in LeafVals(s, hs, v))
    decreases s
  {
    match s
    case Leaf(k) =>
      assert Leaves(s)[0] == k;
      assert LeafVals(s, hs, v) == [HVal(hs[k], v)];
    case Join(l, rt) =>
      LeafValsJoin(l, rt, hs, v);
      ShapeValOr(l, hs, v);
      ShapeValOr(rt, hs, v);
  }

  /** A tree of XORs is the parity of the values it reads. */
  lemma {:induction false} ShapeValXor(s: Shape, hs: seq<Handle>, v: Valuation)
    requires Within(s, |hs|)
    ensures ShapeVal(XorCode, s, hs, v) == Parity(LeafVals(s, hs, v))
    decreases s
  {
    match s
    case Leaf(k) =>
      assert Leaves(s)[0] == k;
      var vs := LeafVals(s, hs, v);
      assert vs == [HVal(hs[k], v)] && vs[..0] == [];
      assert CountTrue(vs) == if HVal(hs[k], v) then 1 else 0;
    case Join(l, rt) =>
      LeafValsJoin(l, rt, hs, v);
      ShapeValXor(l, hs, v);
      ShapeValXor(rt, hs, v);
      ParityAppend(LeafVals(l, hs, v), LeafVals(rt, hs, v));
  }

  /** The values of the handles of a list. */
  function Vals(hs: seq<Handle>, v: Valuation): seq<bool> {
    seq(|hs|, k requires 0 <= k < |hs| => HVal(hs[k], v))
  }

  lemma AllTrueVals(hs: seq<Handle>, v: Valuation)
    ensures (false !in Vals(hs, v)) <==> forall k :: 0 <= k < |hs| ==> HVal(hs[k], v)
  {
    var vs := Vals(hs, v);
    assert forall k :: 0 <= k < |vs| ==> vs[k] == HVal(hs[k], v);
    if false in vs {
      var k :| 0 <= k < |vs| && !vs[k];
      assert !HVal(hs[k], v);
    }
  }

  lemma SomeTrueVals(hs: seq<Handle>, v: Valuation)
    ensures (true in Vals(hs, v)) <==> exists k :: 0 <= k < |hs| && HVal(hs[k], v)
  {
    var vs := Vals(hs, v);
    assert forall k :: 0 <= k < |vs| ==> vs[k] == HVal(hs[k], v);
    if true in vs {
      var k :| 0 <= k < |vs| && vs[k];
      assert HVal(hs[k], v);
    }
  }

  /** The corrected tree over a whole list reads every handle once, in
      order. */
  lemma TreeLeafVals(hs: seq<Handle>, v: Valuation)
    requires |hs| >= 1
    ensures LeafVals(TreeShape(0, |hs|), hs, v) == Vals(hs, v)
  {
    TreeShapeLeaves(0, |hs|);
  }

  /** Every handle of the list is an operand. */
  predicate AllOperands(net: Network, hs: seq<Handle>) {
    forall k :: 0 <= k < |hs| ==> Operand(net, hs[k])
  }

  /** `v` gives every listed logic node the value of its gate over its
      fanins, as a simulation of the network would. */
  predicate Consistent(net: Network, v: Valuation) {
    forall x :: x in net.lnodes ==> (x in v) == GateVal(net, Handle(Some(x), false), v)
  }

  /** `b` keeps every registered object of `a` registered and every listed
      logic node of `a` listed with the same kind, code and fanins. */
  ghost predicate Extends(a: Network, b: Network) {
    && (forall y :: Registered(a, y) ==> Registered(b, y))
    && (forall y :: y in a.lnodes ==>
          y in b.lnodes && y in a.objs && y in b.objs && SameLogic(b.objs[y], a.objs[y]))
  }

  /** A listed logic node of a consistent network is registered. */
  lemma ListedRegistered(net: Network, y: Ref)
    requires LnodesOk(net) && y in net.lnodes
    ensures Registered(net, y)
  {
    var k :| 0 <= k < |net.lnodes| && net.lnodes[k] == y;
  }

  lemma ExtendsRefl(net: Network)
    requires LnodesOk(net)
    ensures Extends(net, net)
  {
    forall y | y in net.lnodes ensures y in net.objs {
      ListedRegistered(net, y);
    }
  }

  /** A valuation consistent with an extension is consistent with the
      original: the old gates are still listed and read the same. */
  lemma ConsistentShrinks(a: Network, b: Network, v: Valuation)
    requires Extends(a, b) && Consistent(b, v)
    ensures Consistent(a, v)
  {
    forall x | x in a.lnodes
      ensures (x in v) == GateVal(a, Handle(Some(x), false), v)
    {
      assert (x in v) == GateVal(b, Handle(Some(x), false), v);
    }
  }

  /** Adding a node keeps every registered object registered. */
  lemma AddLogicNodeKeepsRegistered(net: Network, g: FCode, a: Ref, b: Ref)
    requires Ready(net) && a in net.objs && b in net.objs
    ensures forall y :: Registered(net, y) ==> Registered(AddLogicNode(net, g, a, b), y)
  {
    var r := AddLogicNode(net, g, a, b);
    AllocWireNodes(net, g, a, b);
    AddLogicNodeIsInsert(net, g, a, b);
    var n1 := AllocObj(net, Logic);
    var n2 := Allocate(net);
    RegNodeKeepsRegistered(n1, net.nextRef);
    assert n2 == RegNode(n1, net.nextRef);
    forall y | Registered(net, y) ensures Registered(r, y) {
      assert Registered(n1, y);
      assert Registered(n2, y);
    }
  }

  /** Adding a node keeps every registered object registered and every
      listed logic node listed with its key. */
  lemma AddLogicNodeExtends(net: Network, g: FCode, a: Ref, b: Ref)
    requires Valid(net) && a in net.objs && b in net.objs
    ensures Ready(net)
    ensures Extends(net, AddLogicNode(net, g, a, b))
  {
    ValidClosed(net);
    var r := AddLogicNode(net, g, a, b);
    AddLogicNodeKeepsRegistered(net, g, a, b);
    AllocWireNodes(net, g, a, b);
    AddLogicNodeIsInsert(net, g, a, b);
    forall y | y in net.lnodes
      ensures y in r.lnodes && y in net.objs && y in r.objs && SameLogic(r.objs[y], net.objs[y])
    {
      ListedRegistered(net, y);
    }
  }

  /** `new_logic` keeps the input list and the kind, code and fanins of
      every existing object. */
  lemma NewLogicFrame(net: Network, f: FCode, h0: Handle, h1: Handle)
    requires Ready(net) && HandleIn(net, h0) && HandleIn(net, h1)
    ensures var r := NewLogic(net, f, h0, h1);
            && r.net.inputs == net.inputs
            && forall y :: y in net.objs ==> y in r.net.objs && SameLogic(r.net.objs[y], net.objs[y])
  {
    var c := Canonicalize(f, h0, h1, Ids(net));
    if c.Gate? {
      assert NewLogic(net, f, h0, h1) == Intern(net, c.fcode, c.in0, c.in1, c.inv);
      InternFrame(net, c.fcode, c.in0, c.in1, c.inv);
    }
  }

  /** The probe keeps the input list and every existing object's kind,
      code and fanins. */
  lemma InternFrame(net: Network, g: FCode, a: Ref, b: Ref, inv: bool)
    requires Ready(net) && a in net.objs && b in net.objs
    ensures var r := Intern(net, g, a, b, inv);
            && r.net.inputs == net.inputs
            && forall y :: y in net.objs ==> y in r.net.objs && SameLogic(r.net.objs[y], net.objs[y])
  {
    if Lookup(net, g, a, b).None? {
      AddLogicNodeFrame(net, g, a, b);
    }
  }

  /** Adding a node keeps the input list and every existing object's kind,
      code and fanins. */
  lemma AddLogicNodeFrame(net: Network, g: FCode, a: Ref, b: Ref)
    requires Ready(net) && a in net.objs && b in net.objs
    ensures var r := AddLogicNode(net, g, a, b);
            && r.inputs == net.inputs
            && forall y :: y in net.objs ==> y in r.objs && SameLogic(r.objs[y], net.objs[y])
  {
    AllocWireNodes(net, g, a, b);
    AddLogicNodeIsInsert(net, g, a, b);
  }

  lemma ExtendsTrans(a: Network, b: Network, c: Network)
    requires Extends(a, b) && Extends(b, c)
    ensures Extends(a, c)
  {
  }

  /** The table probe keeps every registered object and listed logic node
      as it was. */
  lemma InternExtends(net: Network, g: FCode, a: Ref, b: Ref, inv: bool)
    requires Valid(net) && a in net.objs && b in net.objs
    ensures Ready(net)
    ensures Extends(net, Intern(net, g, a, b, inv).net)
  {
    ValidClosed(net);
    if Lookup(net, g, a, b).None? {
      AddLogicNodeExtends(net, g, a, b);
    } else {
      ExtendsRefl(net);
    }
  }

  /** `new_logic` keeps every registered object and listed logic node as
      it was and returns an operand of the result; for two distinct
      operand nodes that is a listed logic node. */
  lemma NewLogicExtends(net: Network, f: FCode, h0: Handle, h1: Handle)
    requires Valid(net) && Operand(net, h0) && Operand(net, h1)
    ensures Ready(net) && HandleIn(net, h0) && HandleIn(net, h1)
    ensures var r := NewLogic(net, f, h0, h1);
            && Extends(net, r.net) && Operand(r.net, r.handle)
            && (h0.node.Some? && h1.node.Some? && h0.node != h1.node ==>
                  r.handle.node.Some? && r.handle.node.value in r.net.lnodes)
  {
    ValidClosed(net);
    NewLogicKeepsValid(net, f, h0, h1);
    var c := Canonicalize(f, h0, h1, Ids(net));
    var r := NewLogic(net, f, h0, h1);
    if c.Gate? {
      CanonicalKeyStrict(net, f, h0, h1);
      assert r == Intern(net, c.fcode, c.in0, c.in1, c.inv);
      InternExtends(net, c.fcode, c.in0, c.in1, c.inv);
      NewLogicShares(net, f, h0, h1);
      NewLogicAdds(net, f, h0, h1);
      assert r.handle.node.value in r.net.lnodes;
      ListedRegistered(r.net, r.handle.node.value);
    } else {
      assert r.net == net;
      ExtendsRefl(net);
    }
  }

  /** `new_logic` simulates its request: it keeps the network valid and its
      listed gates as they were, and on every valuation consistent with the
      result the returned handle has the requested function's value. */
  lemma NewLogicConsistent(net: Network, f: FCode, h0: Handle, h1: Handle)
    requires Valid(net) && Operand(net, h0) && Operand(net, h1)
    ensures Ready(net) && HandleIn(net, h0) && HandleIn(net, h1)
    ensures var r := NewLogic(net, f, h0, h1);
            && Valid(r.net) && Extends(net, r.net) && Operand(r.net, r.handle)
            && forall v :: Consistent(r.net, v) ==> HVal(r.handle, v) == Apply(f, HVal(h0, v), HVal(h1, v))
  {
    NewLogicKeepsValid(net, f, h0, h1);
    NewLogicExtends(net, f, h0, h1);
    NewLogicSound(net, f, h0, h1);
    var r := NewLogic(net, f, h0, h1);
    var gate := h0.node.Some? && h1.node.Some? && h0.node != h1.node;
    forall v | Consistent(r.net, v) ensures HVal(r.handle, v) == Apply(f, HVal(h0, v), HVal(h1, v)) {
      if gate {
        ConsistentGate(r.net, r.handle, v);
      }
    }
  }

  /** On a consistent valuation a listed node reads as its gate. */
  lemma ConsistentGate(net: Network, h: Handle, v: Valuation)
    requires h.node.Some? && h.node.value in net.lnodes && Consistent(net, v)
    ensures HVal(h, v) == GateVal(net, h, v)
  {
    var x := h.node.value;
    assert (x in v) == GateVal(net, Handle(Some(x), false), v);
  }

  /** The last step of a join: the gate over the two subtrees, each built
      soundly, is built soundly. */
  lemma JoinStepSound(net: Network, f: FCode, ls: Shape, rs: Shape, hs: seq<Handle>, a: Built, b: Built)
    requires Within(Join(ls, rs), |hs|) && Within(ls, |hs|) && Within(rs, |hs|)
    requires Extends(net, a.net) && Extends(a.net, b.net)
    requires Valid(b.net) && AllOperands(b.net, hs) && Operand(b.net, b.handle)
    requires Operand(a.net, a.handle)
    requires forall v :: Consistent(a.net, v) ==> HVal(a.handle, v) == ShapeVal(f, ls, hs, v)
    requires forall v :: Consistent(b.net, v) ==> HVal(b.handle, v) == ShapeVal(f, rs, hs, v)
    ensures Ready(b.net) && HandleIn(b.net, a.handle) && HandleIn(b.net, b.handle)
    ensures var r := NewLogic(b.net, f, a.handle, b.handle);
            && Valid(r.net) && Extends(net, r.net) && AllOperands(r.net, hs) && Operand(r.net, r.handle)
            && (forall v :: Consistent(r.net, v) ==> HVal(r.handle, v) == ShapeVal(f, Join(ls, rs), hs, v))
  {
    assert Operand(b.net, a.handle);
    NewLogicConsistent(b.net, f, a.handle, b.handle);
    var r := NewLogic(b.net, f, a.handle, b.handle);
    ExtendsTrans(net, a.net, b.net);
    ExtendsTrans(net, b.net, r.net);
    JoinValue(f, ls, rs, hs, a, b, r);
  }

  /** The value half of `JoinStepSound`: a valuation consistent with the
      final network is consistent with both earlier ones, where the
      subtrees have their values. */
  lemma JoinValue(f: FCode, ls: Shape, rs: Shape, hs: seq<Handle>, a: Built, b: Built, r: Built)
    requires Within(Join(ls, rs), |hs|) && Within(ls, |hs|) && Within(rs, |hs|)
    requires Extends(a.net, b.net) && Extends(b.net, r.net)
    requires forall v :: Consistent(a.net, v) ==> HVal(a.handle, v) == ShapeVal(f, ls, hs, v)
    requires forall v :: Consistent(b.net, v) ==> HVal(b.handle, v) == ShapeVal(f, rs, hs, v)
    requires forall v :: Consistent(r.net, v) ==> HVal(r.handle, v) == Apply(f, HVal(a.handle, v), HVal(b.handle, v))
    ensures forall v :: Consistent(r.net, v) ==> HVal(r.handle, v) == ShapeVal(f, Join(ls, rs), hs, v)
  {
    forall v | Consistent(r.net, v) ensures HVal(r.handle, v) == ShapeVal(f, Join(ls, rs), hs, v) {
      ConsistentShrinks(b.net, r.net, v);
      ConsistentShrinks(a.net, b.net, v);
    }
  }

  /** A tree built on a valid network keeps it valid and extends it, and on
      every valuation consistent with the result the returned handle has
      the value of the shape. */
  lemma {:induction false} BuildSound(net: Network, f: FCode, s: Shape, hs: seq<Handle>)
    requires Valid(net) && AllOperands(net, hs) && Within(s, |hs|)
    ensures Ready(net) && AllIn(net, hs)
    ensures var r := Build(net, f, s, hs);
            && Valid(r.net) && Extends(net, r.net) && AllOperands(r.net, hs) && Operand(r.net, r.handle)
            && (forall v :: Consistent(r.net, v) ==> HVal(r.handle, v) == ShapeVal(f, s, hs, v))
    decreases s
  {
    ValidClosed(net);
    match s
    case Leaf(k) =>
      assert Leaves(s)[0] == k;
      ExtendsRefl(net);
    case Join(ls, rs) =>
      JoinUnfolds(net, f, ls, rs, hs);
      BuildSound(net, f, ls, hs);
      var a := Build(net, f, ls, hs);
      BuildSound(a.net, f, rs, hs);
      var b := Build(a.net, f, rs, hs);
      JoinStepSound(net, f, ls, rs, hs, a, b);
  }

  /** `new_and(list)` keeps the network valid and its listed gates as they
      were, and on every valuation consistent with the result the returned
      handle is true exactly when every handle of the list is. */
  lemma NewAndListSound(net: Network, hs: seq<Handle>)
    requires Valid(net) && AllOperands(net, hs) && |hs| >= 1
    ensures Ready(net) && AllIn(net, hs)
    ensures var r := NewAndList(net, hs);
            && Valid(r.net) && Extends(net, r.net) && Operand(r.net, r.handle)
            && forall v :: Consistent(r.net, v) ==>
                 (HVal(r.handle, v) <==> forall k :: 0 <= k < |hs| ==> HVal(hs[k], v))
  {
    var s := TreeShape(0, |hs|);
    BuildSound(net, AndCode, s, hs);
    var r := NewAndList(net, hs);
    assert r == Build(net, AndCode, s, hs);
    forall v | Consistent(r.net, v) ensures HVal(r.handle, v) <==> forall k :: 0 <= k < |hs| ==> HVal(hs[k], v) {
      ShapeValAnd(s, hs, v);
      TreeLeafVals(hs, v);
      AllTrueVals(hs, v);
    }
  }

  /** `new_or(list)`: the returned handle is true exactly when some handle
      of the list is. */
  lemma NewOrListSound(net: Network, hs: seq<Handle>)
    requires Valid(net) && AllOperands(net, hs) && |hs| >= 1
    ensures Ready(net) && AllIn(net, hs)
    ensures var r := NewOrList(net, hs);
            && Valid(r.net) && Extends(net, r.net) && Operand(r.net, r.handle)
            && forall v :: Consistent(r.net, v) ==>
                 (HVal(r.handle, v) <==> exists k :: 0 <= k < |hs| && HVal(hs[k], v))
  {
    var s := TreeShape(0, |hs|);
    BuildSound(net, OrCode, s, hs);
    var r := NewOrList(net, hs);
    assert r == Build(net, OrCode, s, hs);
    forall v | Consistent(r.net, v) ensures HVal(r.handle, v) <==> exists k :: 0 <= k < |hs| && HVal(hs[k], v) {
      ShapeValOr(s, hs, v);
      TreeLeafVals(hs, v);
      SomeTrueVals(hs, v);
    }
  }

  /** `new_xor(list)`: the returned handle is the parity of the handles of
      the list. */
  lemma NewXorListSound(net: Network, hs: seq<Handle>)
    requires Valid(net) && AllOperands(net, hs) && |hs| >= 1
    ensures Ready(net) && AllIn(net, hs)
    ensures var r := NewXorList(net, hs);
            && Valid(r.net) && Extends(net, r.net) && Operand(r.net, r.handle)
            && forall v :: Consistent(r.net, v) ==>
                 HVal(r.handle, v) == Parity(Vals(hs, v))
  {
    var s := TreeShape(0, |hs|);
    BuildSound(net, XorCode, s, hs);
    var r := NewXorList(net, hs);
    assert r == Build(net, XorCode, s, hs);
    forall v | Consistent(r.net, v) ensures HVal(r.handle, v) == Parity(Vals(hs, v)) {
      ShapeValXor(s, hs, v);
      TreeLeafVals(hs, v);
    }
  }

  /** As written, `clear()` leaves the old nodes in the hash chains, so a
      request for the key of a node listed before the clear is answered with
      that stale node, which is no longer listed or registered. */
  lemma ClearAsWrittenReturnsStale(net: Network, x: Ref, g: FCode, a: Ref, b: Ref)
    requires Valid(net) && x in net.lnodes && x in net.objs && Matches(net.objs[x], g, a, b)
    ensures Ready(ClearAsWritten(net)) && a in net.objs && b in net.objs
    ensures NewLogic(ClearAsWritten(net), g, Handle(Some(a), false), Handle(Some(b), false))
            == Built(ClearAsWritten(net), Handle(Some(x), false))
    ensures x !in ClearAsWritten(net).lnodes && !Registered(ClearAsWritten(net), x)
  {
    var c := ClearAsWritten(net);
    ValidClosed(net);
    var i :| 0 <= i < |net.lnodes| && net.lnodes[i] == x;
    assert Canonical(net, x);
    assert Slot(net.objs[x], 0) == Some(a) && Slot(net.objs[x], 1) == Some(b);
    CanonicalizeReadsIds(g, Handle(Some(a), false), Handle(Some(b), false), c, net);
    assert IdOf(net, a) < IdOf(net, b);
    GateCode(g, a, b, Ids(net));
    var ha, hb := Handle(Some(a), false), Handle(Some(b), false);
    assert FoldInversions(g, ha, hb) == g;
    assert Canonicalize(g, ha, hb, Ids(c)) == Gate(g, a, b, false);
    LookupFindsListed(net, x, g, a, b);
    assert Lookup(c, g, a, b) == Lookup(net, g, a, b);
  }

  /** With the chains emptied as well, the first gate requested after a
      clear is a fresh node, the only one listed. */
  lemma ClearForgetsGates(net: Network, f: FCode, h0: Handle, h1: Handle)
    requires Valid(net) && HandleIn(Clear(net), h0) && HandleIn(Clear(net), h1)
    requires h0.node.Some? && h1.node.Some? && h0.node != h1.node
    ensures Ready(Clear(net))
    ensures var r := NewLogic(Clear(net), f, h0, h1);
            && r.handle.node == Some(net.nextRef)
            && r.net.lnodes == [net.nextRef]
  {
    var c := Clear(net);
    ClearKeepsValid(net);
    ValidClosed(c);
    NewLogicShares(c, f, h0, h1);
    NewLogicAdds(c, f, h0, h1);
  }
}
