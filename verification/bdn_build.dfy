/** Building a `BdNetwork`: node-object allocation, `reg_node`, ports and
    their terminals, D-FFs, latches, output fanins, `clear` and the
    constructor. */
module BdnBuild {
  import opened Base
  import opened IdPool
  import opened Canon
  import opened BdnTypes
  import opened BdnTable
  import opened BdnConnect
  import opened BdnValid

  /** A fresh node object of kind `kind` (the `alloc_*node` family): no id,
      no fanins, no fanouts. */
  function AllocObj(net: Network, kind: Kind): (r: Network)
    ensures r == net.(objs := r.objs, nextRef := net.nextRef + 1)
    ensures r.objs.Keys == net.objs.Keys + {net.nextRef}
    ensures r.objs[net.nextRef] == NewNode(kind)
    ensures forall x :: x in net.objs && x != net.nextRef ==> r.objs[x] == net.objs[x]
  {
    net.(objs := net.objs[net.nextRef := NewNode(kind)], nextRef := net.nextRef + 1)
  }

  /** Allocation keeps the invariant: the new object is above every existing
      one, so nothing refers to it yet. */
  lemma AllocObjKeepsValid(net: Network, kind: Kind)
    requires Valid(net)
    ensures net.nextRef !in net.objs
    ensures Valid(AllocObj(net, kind))
    ensures IoOk(net) ==> IoOk(AllocObj(net, kind))
    ensures forall y :: Registered(net, y) ==> Registered(AllocObj(net, kind), y)
  {
    var r := AllocObj(net, kind);
    var n := net.nextRef;
    assert n !in net.objs;
    assert forall y :: IdOf(r, y) == IdOf(net, y);
    assert forall y :: y in net.objs ==> KeyHash(r, y) == KeyHash(net, y);
    FreshObjFanouts(net.objs, n, kind);
  }

  /** A fresh object with no fanins and no fanouts keeps slots and fanout
      lists in agreement. */
  lemma FreshObjFanouts(objs: map<Ref, Node>, n: Ref, kind: Kind)
    requires FanoutOk(objs) && n !in objs
    ensures FanoutOk(objs[n := NewNode(kind)])
  {
    var r := objs[n := NewNode(kind)];
    forall x, k | x in r && 0 <= k < |r[x].fanouts|
      ensures r[x].fanouts[k].to in r && r[x].fanouts[k].pos < 2
              && Slot(r[r[x].fanouts[k].to], r[x].fanouts[k].pos) == Some(x)
    {
      assert x != n;
    }
  }

  /** `reg_node`: the node gets the smallest free id, the id is taken from
      the pool and the node array maps it to the node, growing by one when
      the id is new.  The precondition is the assertion of the source. */
  function RegNode(net: Network, x: Ref): (r: Network)
    requires x in net.objs
    requires Avail(net.nodePool) <= |net.nodeArray|
    ensures r == net.(objs := r.objs, nodePool := r.nodePool, nodeArray := r.nodeArray)
    ensures Avail(net.nodePool) !in net.nodePool
    ensures r.nodePool == net.nodePool + {Avail(net.nodePool)}
    ensures r.objs.Keys == net.objs.Keys
    ensures r.objs[x] == net.objs[x].(id := Some(Avail(net.nodePool)))
    ensures forall y :: y in net.objs && y != x ==> r.objs[y] == net.objs[y]
    ensures |r.nodeArray| == if Avail(net.nodePool) == |net.nodeArray| then |net.nodeArray| + 1
                             else |net.nodeArray|
    ensures forall i :: 0 <= i < |net.nodeArray| && i != Avail(net.nodePool) ==>
              r.nodeArray[i] == net.nodeArray[i]
    ensures Registered(r, x)
  {
    var a := Avail(net.nodePool);
    var arr := if a == |net.nodeArray| then net.nodeArray + [x] else net.nodeArray[a := x];
    net.(objs := net.objs[x := net.objs[x].(id := Some(a))],
         nodePool := net.nodePool + {a},
         nodeArray := arr)
  }

  /** The assertion in `reg_node` never fails on a network whose pool stays
      below the node-array size. */
  lemma RegNodeAssertHolds(net: Network)
    requires PoolBounded(net)
    ensures Avail(net.nodePool) <= |net.nodeArray|
  {
    AvailWithin(net.nodePool, |net.nodeArray|);
  }

  /** Registering keeps every earlier registration and the pool bound. */
  lemma RegNodeKeepsRegistered(net: Network, x: Ref)
    requires x in net.objs && PoolBounded(net)
    ensures Avail(net.nodePool) <= |net.nodeArray|
    ensures PoolBounded(RegNode(net, x))
    ensures forall y :: y != x && Registered(net, y) ==> Registered(RegNode(net, x), y)
    ensures forall y :: y != x ==> IdOf(RegNode(net, x), y) == IdOf(net, y)
  {
    RegNodeAssertHolds(net);
  }

  /** An object no fanout list mentions is held by no fanin slot. */
  lemma NoFanoutsNoHolder(objs: map<Ref, Node>, x: Ref)
    requires FanoutOk(objs) && x in objs && objs[x].fanouts == []
    ensures forall y, p :: y in objs && 0 <= p < 2 && Slot(objs[y], p).Some? ==> Slot(objs[y], p).value != x
  {
    forall y, p | y in objs && 0 <= p < 2 && Slot(objs[y], p).Some?
      ensures Slot(objs[y], p).value != x
    {
      assert Edge(y, p) in objs[Slot(objs[y], p).value].fanouts;
    }
  }

  /** Registering an object that is not registered yet and that no node
      uses as a fanin keeps the invariant. */
  lemma RegNodeKeepsValid(net: Network, x: Ref)
    requires Valid(net) && x in net.objs
    requires forall i :: i in net.nodePool ==> net.nodeArray[i] != x
    requires net.objs[x].fanouts == []
    ensures Avail(net.nodePool) <= |net.nodeArray|
    ensures Valid(RegNode(net, x))
    ensures IoOk(net) ==> IoOk(RegNode(net, x))
    ensures forall y :: y != x && Registered(net, y) ==> Registered(RegNode(net, x), y)
  {
    RegNodeKeepsRegistered(net, x);
    NoFanoutsNoHolder(net.objs, x);
    RegNodePoolOk(net, x);
    RegNodeFanoutOk(net, x);
    RegNodeLnodesOk(net, x);
    RegNodeTableOk(net, x);
  }

  lemma RegNodePoolOk(net: Network, x: Ref)
    requires PoolOk(net) && x in net.objs
    requires forall i :: i in net.nodePool ==> net.nodeArray[i] != x
    ensures Avail(net.nodePool) <= |net.nodeArray|
    ensures PoolOk(RegNode(net, x))
  {
    RegNodeAssertHolds(net);
    var r := RegNode(net, x);
    var a := Avail(net.nodePool);
    forall i: nat | i in r.nodePool
      ensures r.nodeArray[i] in r.objs && r.objs[r.nodeArray[i]].id == Some(i)
    {
      if i != a {
        assert r.nodeArray[i] == net.nodeArray[i];
      }
    }
  }

  lemma RegNodeFanoutOk(net: Network, x: Ref)
    requires FanoutOk(net.objs) && x in net.objs
    requires Avail(net.nodePool) <= |net.nodeArray|
    ensures FanoutOk(RegNode(net, x).objs)
  {
    var r := RegNode(net, x);
    assert forall y :: y in r.objs ==> r.objs[y].fanouts == net.objs[y].fanouts;
    assert forall y, p :: y in r.objs ==> Slot(r.objs[y], p) == Slot(net.objs[y], p);
  }

  lemma RegNodeLnodesOk(net: Network, x: Ref)
    requires LnodesOk(net) && PoolBounded(net) && x in net.objs
    requires forall i :: i in net.nodePool ==> net.nodeArray[i] != x
    requires forall y, p :: y in net.objs && 0 <= p < 2 && Slot(net.objs[y], p).Some? ==>
               Slot(net.objs[y], p).value != x
    ensures Avail(net.nodePool) <= |net.nodeArray|
    ensures LnodesOk(RegNode(net, x))
  {
    RegNodeKeepsRegistered(net, x);
    var r := RegNode(net, x);
    assert x !in net.lnodes;
    forall k | 0 <= k < |r.lnodes| ensures Canonical(r, r.lnodes[k]) {
      var z := r.lnodes[k];
      assert Canonical(net, z);
      assert Slot(net.objs[z], 0).value != x && Slot(net.objs[z], 1).value != x;
    }
  }

  lemma RegNodeTableOk(net: Network, x: Ref)
    requires TableOk(net) && PoolBounded(net) && x in net.objs
    requires forall i :: i in net.nodePool ==> net.nodeArray[i] != x
    requires forall k :: 0 <= k < |net.lnodes| ==> Registered(net, net.lnodes[k])
    requires forall y, p :: y in net.objs && 0 <= p < 2 && Slot(net.objs[y], p).Some? ==>
               Slot(net.objs[y], p).value != x
    ensures Avail(net.nodePool) <= |net.nodeArray|
    ensures TableOk(RegNode(net, x))
  {
    RegNodeKeepsRegistered(net, x);
    var r := RegNode(net, x);
    assert x !in net.lnodes;
    forall y | y in net.objs && y != x ensures KeyHash(r, y) == KeyHash(net, y) {
      if net.objs[y].fanin0.Some? { assert Slot(net.objs[y], 0).value != x; }
      if net.objs[y].fanin1.Some? { assert Slot(net.objs[y], 1).value != x; }
    }
    forall i, k | 0 <= i < |r.buckets| && 0 <= k < |r.buckets[i]|
      ensures r.buckets[i][k] != x
    {
      assert r.buckets[i][k] in net.lnodes;
    }
  }

  /** `new_port`: a port numbered after the existing ones, with every input
      and output terminal empty. */
  function NewPort(net: Network, name: string, width: nat): (r: Network)
    ensures |r.ports| == |net.ports| + 1 && r.ports[..|net.ports|] == net.ports
    ensures var p := r.ports[|net.ports|];
            p.id == |net.ports| && p.name == name && p.width == width
            && PortShaped(p)
            && (forall b :: 0 <= b < width ==> p.inputs[b].None? && p.outputs[b].None?)
    ensures r == net.(ports := r.ports)
  {
    net.(ports := net.ports + [Port(|net.ports|, name, width, seq(width, _ => None), seq(width, _ => None))])
  }

  /** The terminal arrays of a port have one entry per bit. */
  predicate PortShaped(p: Port) {
    |p.inputs| == p.width && |p.outputs| == p.width
  }

  /** `new_port_input(port, bitpos)`: a fresh input node fills bit `bitpos`
      of the port, is registered and joins the input list.  `None` stands
      for the two assertion failures: a bit outside the port, or a bit that
      already has an input. */
  function NewPortInput(net: Network, p: nat, bitpos: nat): (r: Option<Network>)
    requires p < |net.ports| && PortShaped(net.ports[p])
    requires PoolBounded(net)
    ensures r.None? <==> bitpos >= net.ports[p].width || net.ports[p].inputs[bitpos].Some?
    ensures r.Some? ==>
              var n := net.nextRef;
              && r.value.ports == net.ports[p := net.ports[p].(inputs := net.ports[p].inputs[bitpos := Some(n)])]
              && n in r.value.objs && r.value.objs[n].kind == Input
              && r.value.objs[n].id == Some(Avail(net.nodePool))
              && Registered(r.value, n)
              && r.value.inputs == net.inputs + [n]
              && r.value.outputs == net.outputs && r.value.lnodes == net.lnodes
  {
    var port := net.ports[p];
    if bitpos >= port.width || port.inputs[bitpos].Some? then None
    else
      var n := net.nextRef;
      var net1 := AllocObj(net, Input);
      var net2 := net1.(ports := net1.ports[p := port.(inputs := port.inputs[bitpos := Some(n)])]);
      RegNodeAssertHolds(net2);
      var net3 := RegNode(net2, n);
      Some(net3.(inputs := net3.inputs + [n]))
  }

  /** `new_port_output(port, bitpos)` as the source has it: the node fills
      the bit and joins the output list but is never given an id. */
  function NewPortOutputAsWritten(net: Network, p: nat, bitpos: nat): (r: Option<Network>)
    requires p < |net.ports| && PortShaped(net.ports[p])
    ensures r.None? <==> bitpos >= net.ports[p].width || net.ports[p].outputs[bitpos].Some?
    ensures r.Some? ==>
              var n := net.nextRef;
              && r.value.ports == net.ports[p := net.ports[p].(outputs := net.ports[p].outputs[bitpos := Some(n)])]
              && n in r.value.objs && r.value.objs[n].kind == Output
              && r.value.outputs == net.outputs + [n]
              && r.value.nodePool == net.nodePool && r.value.nodeArray == net.nodeArray
  {
    var port := net.ports[p];
    if bitpos >= port.width || port.outputs[bitpos].Some? then None
    else
      var n := net.nextRef;
      var net1 := AllocObj(net, Output);
      var net2 := net1.(ports := net1.ports[p := port.(outputs := port.outputs[bitpos := Some(n)])]);
      Some(net2.(outputs := net2.outputs + [n]))
  }

  /** `new_port_output` registering its node as `new_port_input` does. */
  function NewPortOutput(net: Network, p: nat, bitpos: nat): (r: Option<Network>)
    requires p < |net.ports| && PortShaped(net.ports[p])
    requires PoolBounded(net)
    ensures r.None? <==> bitpos >= net.ports[p].width || net.ports[p].outputs[bitpos].Some?
    ensures r.Some? ==>
              var n := net.nextRef;
              && r.value.ports == net.ports[p := net.ports[p].(outputs := net.ports[p].outputs[bitpos := Some(n)])]
              && n in r.value.objs && r.value.objs[n].kind == Output
              && Registered(r.value, n)
              && r.value.outputs == net.outputs + [n]
              && r.value.inputs == net.inputs && r.value.lnodes == net.lnodes
  {
    var port := net.ports[p];
    if bitpos >= port.width || port.outputs[bitpos].Some? then None
    else
      var n := net.nextRef;
      var net1 := AllocObj(net, Output);
      var net2 := net1.(ports := net1.ports[p := port.(outputs := port.outputs[bitpos := Some(n)])]);
      RegNodeAssertHolds(net2);
      var net3 := RegNode(net2, n);
      Some(net3.(outputs := net3.outputs + [n]))
  }

  /** The output node made by the source's `new_port_output` is in the output
      list but holds no id, so the list is no longer registered. */
  lemma NewPortOutputAsWrittenUnregistered(net: Network, p: nat, bitpos: nat)
    requires Valid(net)
    requires p < |net.ports| && PortShaped(net.ports[p])
    requires bitpos < net.ports[p].width && net.ports[p].outputs[bitpos].None?
    ensures NewPortOutputAsWritten(net, p, bitpos).Some?
    ensures !Registered(NewPortOutputAsWritten(net, p, bitpos).value, net.nextRef)
    ensures !IoOk(NewPortOutputAsWritten(net, p, bitpos).value)
  {
    var r := NewPortOutputAsWritten(net, p, bitpos).value;
    assert r.outputs[|net.outputs|] == net.nextRef;
  }

  /** A fresh terminal made by allocation and `reg_node` keeps the
      invariant and is registered. */
  lemma AllocRegKeepsValid(net: Network, kind: Kind)
    requires Valid(net)
    ensures PoolBounded(AllocObj(net, kind))
    ensures Avail(AllocObj(net, kind).nodePool) <= |AllocObj(net, kind).nodeArray|
    ensures var r := RegNode(AllocObj(net, kind), net.nextRef);
            Valid(r) && Registered(r, net.nextRef) && net.nextRef !in net.objs
            && (IoOk(net) ==> IoOk(r))
            && (forall y :: Registered(net, y) ==> Registered(r, y))
  {
    AllocObjKeepsValid(net, kind);
    var net1 := AllocObj(net, kind);
    assert forall i :: i in net1.nodePool ==> net1.nodeArray[i] != net.nextRef;
    RegNodeKeepsValid(net1, net.nextRef);
  }

  /** Appending a registered terminal to the list of its kind keeps the lists
      registered. */
  lemma IoAppend(a: Network, b: Network, n: Ref)
    requires IoOk(a) && Registered(a, n)
    requires b.objs == a.objs && b.nodePool == a.nodePool && b.nodeArray == a.nodeArray
    requires || (b.inputs == a.inputs + [n] && b.outputs == a.outputs && IsInputKind(a.objs[n].kind))
             || (b.outputs == a.outputs + [n] && b.inputs == a.inputs && IsOutputKind(a.objs[n].kind))
    ensures IoOk(b)
  {
    assert forall y :: Registered(a, y) == Registered(b, y);
  }

  /** Adding an input terminal keeps the invariant and the registration of
      the input and output lists. */
  lemma NewPortInputKeepsValid(net: Network, p: nat, bitpos: nat)
    requires Valid(net) && IoOk(net)
    requires p < |net.ports| && PortShaped(net.ports[p])
    ensures NewPortInput(net, p, bitpos).Some? ==>
              Valid(NewPortInput(net, p, bitpos).value) && IoOk(NewPortInput(net, p, bitpos).value)
  {
    if NewPortInput(net, p, bitpos).Some? {
      AllocRegKeepsValid(net, Input);
      var n := net.nextRef;
      var net1 := AllocObj(net, Input);
      var port := net.ports[p];
      var net2 := net1.(ports := net1.ports[p := port.(inputs := port.inputs[bitpos := Some(n)])]);
      var r := NewPortInput(net, p, bitpos).value;
      var m := RegNode(net1, n);
      assert RegNode(net2, n) == m.(ports := net2.ports);
      assert r == m.(ports := net2.ports, inputs := m.inputs + [n]);
      ValidFrame(m, r);
      IoAppend(m, r, n);
    }
  }

  /** Adding an output terminal the corrected way keeps the invariant and the
      registration of the input and output lists. */
  lemma NewPortOutputKeepsValid(net: Network, p: nat, bitpos: nat)
    requires Valid(net) && IoOk(net)
    requires p < |net.ports| && PortShaped(net.ports[p])
    ensures NewPortOutput(net, p, bitpos).Some? ==>
              Valid(NewPortOutput(net, p, bitpos).value) && IoOk(NewPortOutput(net, p, bitpos).value)
  {
    if NewPortOutput(net, p, bitpos).Some? {
      AllocRegKeepsValid(net, Output);
      var n := net.nextRef;
      var net1 := AllocObj(net, Output);
      var port := net.ports[p];
      var net2 := net1.(ports := net1.ports[p := port.(outputs := port.outputs[bitpos := Some(n)])]);
      var r := NewPortOutput(net, p, bitpos).value;
      var m := RegNode(net1, n);
      assert RegNode(net2, n) == m.(ports := net2.ports);
      assert r == m.(ports := net2.ports, outputs := m.outputs + [n]);
      ValidFrame(m, r);
      IoAppend(m, r, n);
    }
  }

  /** Rewiring a node outside the logic-node list (an output terminal) keeps
      the invariant: no logic node's key, id or hash changes. */
  lemma ConnectKeepsValid(net: Network, from: Option<Ref>, to: Ref, pos: nat)
    requires Valid(net)
    requires to in net.objs && pos < 2 && to !in net.lnodes
    requires from.Some? ==> from.value in net.objs
    ensures Valid(Connect(net, from, to, pos))
    ensures forall y :: Registered(net, y) == Registered(Connect(net, from, to, pos), y)
    ensures IoOk(net) ==> IoOk(Connect(net, from, to, pos))
  {
    var r := Connect(net, from, to, pos);
    ConnectKeepsFanouts(net, from, to, pos);
    forall k | 0 <= k < |net.lnodes| ensures SameLogic(r.objs[net.lnodes[k]], net.objs[net.lnodes[k]]) {
      var z := net.lnodes[k];
      assert Slot(r.objs[z], 0) == Slot(net.objs[z], 0) && Slot(r.objs[z], 1) == Slot(net.objs[z], 1);
    }
    ValidTransfer(net, r);
    if IoOk(net) {
      IoTransfer(net, r);
    }
  }

  /** `set_output_fanin(node, handle)`: the inversion is stored on the
      output node and the handle's node becomes its only fanin.  `None` is
      the assertion failure for a node that is not an output terminal. */
  function SetOutputFanin(net: Network, o: Ref, h: Handle): (r: Option<Network>)
    requires o in net.objs
    requires h.node.Some? ==> h.node.value in net.objs
    ensures r.None? <==> !IsOutputKind(net.objs[o].kind)
    ensures r.Some? ==>
              && r.value.objs.Keys == net.objs.Keys
              && Slot(r.value.objs[o], 0) == h.node && r.value.objs[o].inv == h.inv
              && r.value.levelCache == 0
              && (forall x, p :: x in net.objs && x != o ==> Slot(r.value.objs[x], p) == Slot(net.objs[x], p))
  {
    if !IsOutputKind(net.objs[o].kind) then None
    else
      var net1 := net.(objs := net.objs[o := net.objs[o].(inv := h.inv)]);
      Some(Connect(net1, h.node, o, 0))
  }

  /** Setting an output fanin keeps the invariant and the registration of
      the input and output lists. */
  lemma SetOutputFaninKeepsValid(net: Network, o: Ref, h: Handle)
    requires Valid(net) && IoOk(net) && o in net.objs
    requires h.node.Some? ==> h.node.value in net.objs
    ensures SetOutputFanin(net, o, h).Some? ==>
              Valid(SetOutputFanin(net, o, h).value) && IoOk(SetOutputFanin(net, o, h).value)
  {
    if SetOutputFanin(net, o, h).Some? {
      var net1 := net.(objs := net.objs[o := net.objs[o].(inv := h.inv)]);
      NotLogicNotListed(net, o);
      SetInvKeepsValid(net, o, h.inv);
      ConnectKeepsValid(net1, h.node, o, 0);
    }
  }

  /** A node that is not a logic node is not in the logic-node list. */
  lemma NotLogicNotListed(net: Network, o: Ref)
    requires LnodesOk(net) && o in net.objs && net.objs[o].kind != Logic
    ensures o !in net.lnodes
  {
    forall k | 0 <= k < |net.lnodes| ensures net.lnodes[k] != o {
      assert Canonical(net, net.lnodes[k]);
    }
  }

  /** Changing the output inversion of a node outside the logic-node list
      keeps the invariant. */
  lemma SetInvKeepsValid(net: Network, o: Ref, inv: bool)
    requires Valid(net) && o in net.objs && o !in net.lnodes
    ensures Valid(net.(objs := net.objs[o := net.objs[o].(inv := inv)]))
    ensures forall y :: Registered(net, y) == Registered(net.(objs := net.objs[o := net.objs[o].(inv := inv)]), y)
    ensures IoOk(net) ==> IoOk(net.(objs := net.objs[o := net.objs[o].(inv := inv)]))
  {
    var net1 := net.(objs := net.objs[o := net.objs[o].(inv := inv)]);
    assert forall y, p :: y in net1.objs ==> Slot(net1.objs[y], p) == Slot(net.objs[y], p);
    assert forall y :: y in net1.objs ==> net1.objs[y].fanouts == net.objs[y].fanouts;
    assert FanoutOk(net1.objs);
    ValidTransfer(net, net1);
    if IoOk(net) {
      IoTransfer(net, net1);
    }
  }

  /** Node objects, the allocation mark and a registry of D-FF or latch
      objects: the part of the network that `alloc_dff` and `alloc_latch`
      touch. */
  datatype Store<T> = Store(objs: map<Ref, Node>, next: Ref, arr: seq<T>)

  predicate StoreBounded<T>(st: Store<T>) {
    forall x :: x in st.objs ==> x < st.next
  }

  const DffKinds: seq<Kind> := [DffOutput, DffInput, DffClock, DffSet, DffReset]
  const LatchKinds: seq<Kind> := [LatchOutput, LatchInput, LatchEnable]

  function DffTerminals(d: Dff): seq<Ref> {
    [d.output, d.input, d.clock, d.setNode, d.resetNode]
  }

  function LatchTerminals(l: Latch): seq<Ref> {
    [l.output, l.input, l.enable]
  }

  /** Distinct terminal objects with the kinds `kinds`, in order. */
  predicate TerminalsOk(objs: map<Ref, Node>, ts: seq<Ref>, kinds: seq<Kind>) {
    && |ts| == |kinds| && NoDup(ts)
    && (forall k :: 0 <= k < |ts| ==> ts[k] in objs && objs[ts[k]].kind == kinds[k])
  }

  /** Every D-FF object ever made sits at its own index with its terminals. */
  predicate DffsIn(objs: map<Ref, Node>, arr: seq<Dff>) {
    forall i :: 0 <= i < |arr| ==> arr[i].id == i && TerminalsOk(objs, DffTerminals(arr[i]), DffKinds)
  }

  /** Every latch object ever made sits at its own index with its terminals. */
  predicate LatchesIn(objs: map<Ref, Node>, arr: seq<Latch>) {
    forall i :: 0 <= i < |arr| ==> arr[i].id == i && TerminalsOk(objs, LatchTerminals(arr[i]), LatchKinds)
  }

  predicate DffsAllocated(net: Network) {
    DffsIn(net.objs, net.dffArray)
  }

  predicate LatchesAllocated(net: Network) {
    LatchesIn(net.objs, net.latchArray)
  }

  /** A node object as allocation leaves it: no id, no fanins, no fanouts. */
  predicate Blank(n: Node) {
    n.id.None? && n.fanin0.None? && n.fanin1.None? && n.fanouts == []
  }

  /** `b` keeps every object of `a` and adds only blank objects at or above
      the allocation mark `next`. */
  predicate GrowsFresh(a: map<Ref, Node>, b: map<Ref, Node>, next: Ref) {
    && (forall x :: x in a ==> x in b && b[x] == a[x])
    && (forall x :: x in b && x !in a ==> next <= x && Blank(b[x]))
  }

  lemma GrowsFreshTrans(a: map<Ref, Node>, b: map<Ref, Node>, c: map<Ref, Node>, n1: Ref, n2: Ref)
    requires GrowsFresh(a, b, n1) && GrowsFresh(b, c, n2) && n1 <= n2
    ensures GrowsFresh(a, c, n1)
  {
  }

  /** Consecutive fresh references are distinct. */
  lemma ConsecutiveNoDup(ts: seq<Ref>, n: Ref)
    requires forall k :: 0 <= k < |ts| ==> ts[k] == n + k
    ensures NoDup(ts)
  {
  }

  /** Terminals stay valid when objects are only added. */
  lemma TerminalsKept(a: map<Ref, Node>, b: map<Ref, Node>, ts: seq<Ref>, kinds: seq<Kind>)
    requires TerminalsOk(a, ts, kinds)
    requires forall x :: x in a ==> x in b && b[x].kind == a[x].kind
    ensures TerminalsOk(b, ts, kinds)
  {
  }

  /** The five terminal objects of a new D-FF, from reference `n` on. */
  function DffObjs(objs: map<Ref, Node>, n: Ref): map<Ref, Node> {
    objs[n := NewNode(DffOutput)][n + 1 := NewNode(DffInput)][n + 2 := NewNode(DffClock)]
        [n + 3 := NewNode(DffSet)][n + 4 := NewNode(DffReset)]
  }

  /** The three terminal objects of a new latch, from reference `n` on. */
  function LatchObjs(objs: map<Ref, Node>, n: Ref): map<Ref, Node> {
    objs[n := NewNode(LatchOutput)][n + 1 := NewNode(LatchInput)][n + 2 := NewNode(LatchEnable)]
  }

  lemma DffObjsOk(objs: map<Ref, Node>, n: Ref, d: Dff)
    requires forall x :: x in objs ==> x < n
    requires DffTerminals(d) == [n, n + 1, n + 2, n + 3, n + 4]
    ensures TerminalsOk(DffObjs(objs, n), DffTerminals(d), DffKinds)
    ensures GrowsFresh(objs, DffObjs(objs, n), n)
    ensures forall x :: x in DffObjs(objs, n) ==> x < n + 5
  {
    ConsecutiveNoDup(DffTerminals(d), n);
  }

  lemma LatchObjsOk(objs: map<Ref, Node>, n: Ref, l: Latch)
    requires forall x :: x in objs ==> x < n
    requires LatchTerminals(l) == [n, n + 1, n + 2]
    ensures TerminalsOk(LatchObjs(objs, n), LatchTerminals(l), LatchKinds)
    ensures GrowsFresh(objs, LatchObjs(objs, n), n)
    ensures forall x :: x in LatchObjs(objs, n) ==> x < n + 3
  {
    ConsecutiveNoDup(LatchTerminals(l), n);
  }

  /** Appending a D-FF with valid terminals keeps the registry valid when
      objects are only added. */
  lemma AppendDff(a: map<Ref, Node>, b: map<Ref, Node>, arr: seq<Dff>, d: Dff)
    requires DffsIn(a, arr) && d.id == |arr| && TerminalsOk(b, DffTerminals(d), DffKinds)
    requires forall x :: x in a ==> x in b && b[x].kind == a[x].kind
    ensures DffsIn(b, arr + [d])
  {
    forall i | 0 <= i < |arr| + 1 ensures (arr + [d])[i].id == i && TerminalsOk(b, DffTerminals((arr + [d])[i]), DffKinds) {
      if i < |arr| {
        assert (arr + [d])[i] == arr[i];
        TerminalsKept(a, b, DffTerminals(arr[i]), DffKinds);
      }
    }
  }

  /** Appending a latch with valid terminals keeps the registry valid. */
  lemma AppendLatch(a: map<Ref, Node>, b: map<Ref, Node>, arr: seq<Latch>, l: Latch)
    requires LatchesIn(a, arr) && l.id == |arr| && TerminalsOk(b, LatchTerminals(l), LatchKinds)
    requires forall x :: x in a ==> x in b && b[x].kind == a[x].kind
    ensures LatchesIn(b, arr + [l])
  {
    forall i | 0 <= i < |arr| + 1 ensures (arr + [l])[i].id == i && TerminalsOk(b, LatchTerminals((arr + [l])[i]), LatchKinds) {
      if i < |arr| {
        assert (arr + [l])[i] == arr[i];
        TerminalsKept(a, b, LatchTerminals(arr[i]), LatchKinds);
      }
    }
  }

  /** `alloc_dff` plus the filler step of `new_dff`: a D-FF object with five
      fresh terminal objects, appended to the D-FF array with the next index. */
  function AllocDff(st: Store<Dff>): (r: Store<Dff>)
    requires StoreBounded(st) && DffsIn(st.objs, st.arr)
    ensures StoreBounded(r) && DffsIn(r.objs, r.arr)
    ensures |r.arr| == |st.arr| + 1 && r.arr[..|st.arr|] == st.arr
    ensures r.arr[|st.arr|].name == ""
    ensures st.next <= r.next && GrowsFresh(st.objs, r.objs, st.next)
    ensures forall i, k :: |st.arr| <= i < |r.arr| && 0 <= k < 5 ==> st.next <= DffTerminals(r.arr[i])[k]
  {
    var n := st.next;
    var objs := DffObjs(st.objs, n);
    var d := Dff(|st.arr|, "", n, n + 1, n + 2, n + 3, n + 4);
    DffObjsOk(st.objs, n, d);
    AppendDff(st.objs, objs, st.arr, d);
    assert (st.arr + [d])[..|st.arr|] == st.arr;
    Store(objs, n + 5, st.arr + [d])
  }

  /** The `while` loop of `new_dff`: filler D-FFs until index `id` exists. */
  function FillDffs(st: Store<Dff>, id: nat): (r: Store<Dff>)
    requires StoreBounded(st) && DffsIn(st.objs, st.arr)
    ensures StoreBounded(r) && DffsIn(r.objs, r.arr)
    ensures |r.arr| == if id < |st.arr| then |st.arr| else id + 1
    ensures r.arr[..|st.arr|] == st.arr
    ensures st.next <= r.next && GrowsFresh(st.objs, r.objs, st.next)
    decreases id + 1 - |st.arr|
    ensures forall i, k :: |st.arr| <= i < |r.arr| && 0 <= k < 5 ==> st.next <= DffTerminals(r.arr[i])[k]
  {
    if |st.arr| <= id then
      var m := AllocDff(st);
      var r := FillDffs(m, id);
      assert r.arr[..|st.arr|] == r.arr[..|m.arr|][..|st.arr|];
      GrowsFreshTrans(st.objs, m.objs, r.objs, st.next, m.next);
      forall i, k | |st.arr| <= i < |r.arr| && 0 <= k < 5 ensures st.next <= DffTerminals(r.arr[i])[k] {
        if i == |st.arr| {
          assert r.arr[i] == r.arr[..|m.arr|][i] == m.arr[i];
        }
      }
      r
    else st
  }

  /** `alloc_latch` plus the filler step of `new_latch`. */
  function AllocLatch(st: Store<Latch>): (r: Store<Latch>)
    requires StoreBounded(st) && LatchesIn(st.objs, st.arr)
    ensures StoreBounded(r) && LatchesIn(r.objs, r.arr)
    ensures |r.arr| == |st.arr| + 1 && r.arr[..|st.arr|] == st.arr
    ensures r.arr[|st.arr|].name == ""
    ensures st.next <= r.next && GrowsFresh(st.objs, r.objs, st.next)
    ensures forall i, k :: |st.arr| <= i < |r.arr| && 0 <= k < 3 ==> st.next <= LatchTerminals(r.arr[i])[k]
  {
    var n := st.next;
    var objs := LatchObjs(st.objs, n);
    var l := Latch(|st.arr|, "", n, n + 1, n + 2);
    LatchObjsOk(st.objs, n, l);
    AppendLatch(st.objs, objs, st.arr, l);
    assert (st.arr + [l])[..|st.arr|] == st.arr;
    Store(objs, n + 3, st.arr + [l])
  }

  /** The `while` loop of `new_latch`. */
  function FillLatches(st: Store<Latch>, id: nat): (r: Store<Latch>)
    requires StoreBounded(st) && LatchesIn(st.objs, st.arr)
    ensures StoreBounded(r) && LatchesIn(r.objs, r.arr)
    ensures |r.arr| == if id < |st.arr| then |st.arr| else id + 1
    ensures r.arr[..|st.arr|] == st.arr
    ensures st.next <= r.next && GrowsFresh(st.objs, r.objs, st.next)
    decreases id + 1 - |st.arr|
    ensures forall i, k :: |st.arr| <= i < |r.arr| && 0 <= k < 3 ==> st.next <= LatchTerminals(r.arr[i])[k]
  {
    if |st.arr| <= id then
      var m := AllocLatch(st);
      var r := FillLatches(m, id);
      assert r.arr[..|st.arr|] == r.arr[..|m.arr|][..|st.arr|];
      GrowsFreshTrans(st.objs, m.objs, r.objs, st.next, m.next);
      forall i, k | |st.arr| <= i < |r.arr| && 0 <= k < 3 ensures st.next <= LatchTerminals(r.arr[i])[k] {
        if i == |st.arr| {
          assert r.arr[i] == r.arr[..|m.arr|][i] == m.arr[i];
        }
      }
      r
    else st
  }

  /** `reg_node` on each object of `xs` in turn, each joining the output
      list (the input-side terminals of `new_dff` and `new_latch`). */
  function RegOutputs(net: Network, xs: seq<Ref>): (r: Network)
    requires PoolBounded(net)
    requires forall k :: 0 <= k < |xs| ==> xs[k] in net.objs
    ensures PoolBounded(r) && r.objs.Keys == net.objs.Keys
    decreases |xs|
  {
    if xs == [] then net
    else
      RegNodeKeepsRegistered(net, xs[0]);
      var net1 := RegNode(net, xs[0]);
      RegOutputs(net1.(outputs := net1.outputs + [xs[0]]), xs[1..])
  }

  /** `RegOutputs` appends `xs` to the output list and changes nothing but
      objects, the pool and the node array. */
  lemma {:induction false} RegOutputsFrame(net: Network, xs: seq<Ref>)
    requires PoolBounded(net)
    requires forall k :: 0 <= k < |xs| ==> xs[k] in net.objs
    ensures var r := RegOutputs(net, xs);
            && r == net.(objs := r.objs, nodePool := r.nodePool, nodeArray := r.nodeArray, outputs := r.outputs)
            && r.outputs == net.outputs + xs
    decreases |xs|
  {
    if xs != [] {
      RegNodeKeepsRegistered(net, xs[0]);
      var net1 := RegNode(net, xs[0]);
      var net2 := net1.(outputs := net1.outputs + [xs[0]]);
      RegOutputsFrame(net2, xs[1..]);
      AppendHeadTail(net.outputs, xs);
    }
  }

  /** `RegOutputs` changes no object attribute but the id. */
  lemma {:induction false} RegOutputsNodes(net: Network, xs: seq<Ref>)
    requires PoolBounded(net)
    requires forall k :: 0 <= k < |xs| ==> xs[k] in net.objs
    ensures forall y :: y in net.objs ==> SameButId(RegOutputs(net, xs).objs[y], net.objs[y])
    decreases |xs|
  {
    if xs != [] {
      RegNodeKeepsRegistered(net, xs[0]);
      var net1 := RegNode(net, xs[0]);
      var net2 := net1.(outputs := net1.outputs + [xs[0]]);
      RegOutputsNodes(net2, xs[1..]);
    }
  }

  /** After `RegOutputs` every member of `xs` (when they are distinct) and
      every object registered before and outside `xs` is registered. */
  lemma {:induction false} RegOutputsRegisters(net: Network, xs: seq<Ref>)
    requires PoolBounded(net)
    requires forall k :: 0 <= k < |xs| ==> xs[k] in net.objs
    ensures forall y :: y !in xs && Registered(net, y) ==> Registered(RegOutputs(net, xs), y)
    ensures NoDup(xs) ==> forall k :: 0 <= k < |xs| ==> Registered(RegOutputs(net, xs), xs[k])
    decreases |xs|
  {
    if xs != [] {
      RegNodeKeepsRegistered(net, xs[0]);
      var net1 := RegNode(net, xs[0]);
      var net2 := net1.(outputs := net1.outputs + [xs[0]]);
      assert forall y :: Registered(net1, y) == Registered(net2, y);
      RegOutputsRegisters(net2, xs[1..]);
      if NoDup(xs) {
        NoDupTail(xs);
      }
    }
  }

  /** `reg_node` on each terminal in turn: the first joins the input list,
      the rest the output list. */
  function RegTerminals(net: Network, ts: seq<Ref>): (r: Network)
    requires PoolBounded(net) && |ts| > 0
    requires forall k :: 0 <= k < |ts| ==> ts[k] in net.objs
    ensures PoolBounded(r) && r.objs.Keys == net.objs.Keys
  {
    RegNodeKeepsRegistered(net, ts[0]);
    var net1 := RegNode(net, ts[0]);
    RegOutputs(net1.(inputs := net1.inputs + [ts[0]]), ts[1..])
  }

  /** `RegTerminals` appends the first terminal to the input list and the
      rest to the output list and changes nothing but objects, the pool and
      the node array. */
  lemma RegTerminalsFrame(net: Network, ts: seq<Ref>)
    requires PoolBounded(net) && |ts| > 0
    requires forall k :: 0 <= k < |ts| ==> ts[k] in net.objs
    ensures var r := RegTerminals(net, ts);
            && r == net.(objs := r.objs, nodePool := r.nodePool, nodeArray := r.nodeArray,
                         inputs := r.inputs, outputs := r.outputs)
            && r.inputs == net.inputs + [ts[0]] && r.outputs == net.outputs + ts[1..]
  {
    RegNodeKeepsRegistered(net, ts[0]);
    var net1 := RegNode(net, ts[0]);
    RegOutputsFrame(net1.(inputs := net1.inputs + [ts[0]]), ts[1..]);
  }

  /** `RegTerminals` changes no object attribute but the id. */
  lemma RegTerminalsNodes(net: Network, ts: seq<Ref>)
    requires PoolBounded(net) && |ts| > 0
    requires forall k :: 0 <= k < |ts| ==> ts[k] in net.objs
    ensures forall y :: y in net.objs ==> SameButId(RegTerminals(net, ts).objs[y], net.objs[y])
  {
    RegNodeKeepsRegistered(net, ts[0]);
    var net1 := RegNode(net, ts[0]);
    RegOutputsNodes(net1.(inputs := net1.inputs + [ts[0]]), ts[1..]);
  }

  /** `RegTerminals` registers every terminal when they are distinct and
      keeps every other registration. */
  lemma RegTerminalsRegisters(net: Network, ts: seq<Ref>)
    requires PoolBounded(net) && |ts| > 0
    requires forall k :: 0 <= k < |ts| ==> ts[k] in net.objs
    ensures forall y :: y !in ts && Registered(net, y) ==> Registered(RegTerminals(net, ts), y)
    ensures NoDup(ts) ==> forall k :: 0 <= k < |ts| ==> Registered(RegTerminals(net, ts), ts[k])
  {
    RegNodeKeepsRegistered(net, ts[0]);
    var net1 := RegNode(net, ts[0]);
    var net2 := net1.(inputs := net1.inputs + [ts[0]]);
    assert forall y :: Registered(net1, y) == Registered(net2, y);
    RegOutputsRegisters(net2, ts[1..]);
    if NoDup(ts) {
      NoDupTail(ts);
    }
  }

  /** Two node objects that differ at most in their id. */
  predicate SameButId(a: Node, b: Node) {
    a == b.(id := a.id)
  }

  /** A network with the index of a new D-FF or latch. */
  datatype Made = Made(net: Network, index: nat)

  /** Object kinds kept: what D-FF and latch terminals rely on. */
  predicate KindsKept(a: map<Ref, Node>, b: map<Ref, Node>) {
    forall x :: x in a ==> x in b && b[x].kind == a[x].kind
  }

  lemma DffsInKept(a: map<Ref, Node>, b: map<Ref, Node>, arr: seq<Dff>)
    requires DffsIn(a, arr) && KindsKept(a, b)
    ensures DffsIn(b, arr)
  {
    forall i | 0 <= i < |arr| ensures TerminalsOk(b, DffTerminals(arr[i]), DffKinds) {
      TerminalsKept(a, b, DffTerminals(arr[i]), DffKinds);
    }
  }

  lemma LatchesInKept(a: map<Ref, Node>, b: map<Ref, Node>, arr: seq<Latch>)
    requires LatchesIn(a, arr) && KindsKept(a, b)
    ensures LatchesIn(b, arr)
  {
    forall i | 0 <= i < |arr| ensures TerminalsOk(b, LatchTerminals(arr[i]), LatchKinds) {
      TerminalsKept(a, b, LatchTerminals(arr[i]), LatchKinds);
    }
  }

  /** The first half of `new_dff(name)`: the smallest free D-FF index is
      taken, the D-FF array is filled up to it with fresh D-FFs, and the D-FF
      at that index is named. */
  function PlaceDff(net: Network, name: string): (r: Made)
    requires ObjsBounded(net) && DffsAllocated(net)
    ensures r.index == Avail(net.dffPool) && r.index !in net.dffPool
    ensures r.net == net.(objs := r.net.objs, nextRef := r.net.nextRef,
                          dffArray := r.net.dffArray, dffPool := r.net.dffPool)
    ensures r.net.dffPool == net.dffPool + {r.index}
    ensures |r.net.dffArray| == if r.index < |net.dffArray| then |net.dffArray| else r.index + 1
    ensures forall i :: 0 <= i < |net.dffArray| && i != r.index ==> r.net.dffArray[i] == net.dffArray[i]
    ensures r.net.dffArray[r.index].name == name && r.net.dffArray[r.index].id == r.index
    ensures ObjsBounded(r.net) && DffsAllocated(r.net)
    ensures net.nextRef <= r.net.nextRef && GrowsFresh(net.objs, r.net.objs, net.nextRef)
    ensures |net.dffArray| <= r.index ==>
              forall k :: 0 <= k < 5 ==> net.nextRef <= DffTerminals(r.net.dffArray[r.index])[k]
  {
    var id := Avail(net.dffPool);
    var st := FillDffs(Store(net.objs, net.nextRef, net.dffArray), id);
    var d := st.arr[id].(name := name);
    var arr := st.arr[id := d];
    assert DffsIn(st.objs, arr) by {
      assert forall i :: 0 <= i < |arr| ==> DffTerminals(arr[i]) == DffTerminals(st.arr[i]);
    }
    assert forall i :: 0 <= i < |net.dffArray| && i != id ==> arr[i] == st.arr[..|net.dffArray|][i];
    Made(net.(objs := st.objs, nextRef := st.next, dffArray := arr, dffPool := net.dffPool + {id}), id)
  }

  /** `new_dff(name)`: after `PlaceDff`, the D-FF's output terminal is
      registered and joins the input list, its four input-side terminals are
      registered and join the output list, and the index joins the D-FF
      list. */
  function NewDff(net: Network, name: string): (r: Made)
    requires ObjsBounded(net) && PoolBounded(net) && DffsAllocated(net)
    ensures r.index == Avail(net.dffPool) && r.index !in net.dffPool
    ensures r.index < |r.net.dffArray|
    ensures r.net.dffList == net.dffList + [r.index]
  {
    var m := PlaceDff(net, name);
    var d := m.net.dffArray[m.index];
    assert TerminalsOk(m.net.objs, DffTerminals(d), DffKinds);
    var net2 := RegTerminals(m.net, DffTerminals(d));
    RegTerminalsFrame(m.net, DffTerminals(d));
    Made(net2.(dffList := net2.dffList + [m.index]), m.index)
  }

  /** What `new_dff` promises: the D-FF is named and keeps its index, its
      output terminal joins the input list and its other four terminals the
      output list, all five are registered, and the D-FF registry stays well
      formed. */
  lemma NewDffFacts(net: Network, name: string)
    requires ObjsBounded(net) && PoolBounded(net) && DffsAllocated(net)
    ensures var r := NewDff(net, name);
            var d := r.net.dffArray[r.index];
            && r.net.dffPool == net.dffPool + {r.index}
            && |r.net.dffArray| == (if r.index < |net.dffArray| then |net.dffArray| else r.index + 1)
            && (forall i :: 0 <= i < |net.dffArray| && i != r.index ==> r.net.dffArray[i] == net.dffArray[i])
            && d.name == name && d.id == r.index
            && r.net.inputs == net.inputs + [d.output]
            && r.net.outputs == net.outputs + [d.input, d.clock, d.setNode, d.resetNode]
            && (forall k :: 0 <= k < 5 ==> Registered(r.net, DffTerminals(d)[k]))
            && ObjsBounded(r.net) && PoolBounded(r.net) && DffsAllocated(r.net)
            && r.net.lnodes == net.lnodes && r.net.buckets == net.buckets && r.net.ports == net.ports
  {
    var m := PlaceDff(net, name);
    var d := m.net.dffArray[m.index];
    var ts := DffTerminals(d);
    assert TerminalsOk(m.net.objs, ts, DffKinds);
    var net2 := RegTerminals(m.net, ts);
    RegTerminalsFrame(m.net, ts);
    RegTerminalsNodes(m.net, ts);
    RegTerminalsRegisters(m.net, ts);
    assert KindsKept(m.net.objs, net2.objs);
    DffsInKept(m.net.objs, net2.objs, m.net.dffArray);
  }

  /** The first half of `new_latch(name)`: the smallest free latch index is
      taken, the latch array is filled up to it with fresh latches, and the
      latch at that index is named. */
  function PlaceLatch(net: Network, name: string): (r: Made)
    requires ObjsBounded(net) && LatchesAllocated(net)
    ensures r.index == Avail(net.latchPool) && r.index !in net.latchPool
    ensures r.net == net.(objs := r.net.objs, nextRef := r.net.nextRef,
                          latchArray := r.net.latchArray, latchPool := r.net.latchPool)
    ensures r.net.latchPool == net.latchPool + {r.index}
    ensures |r.net.latchArray| == if r.index < |net.latchArray| then |net.latchArray| else r.index + 1
    ensures forall i :: 0 <= i < |net.latchArray| && i != r.index ==> r.net.latchArray[i] == net.latchArray[i]
    ensures r.net.latchArray[r.index].name == name && r.net.latchArray[r.index].id == r.index
    ensures ObjsBounded(r.net) && LatchesAllocated(r.net)
    ensures net.nextRef <= r.net.nextRef && GrowsFresh(net.objs, r.net.objs, net.nextRef)
    ensures |net.latchArray| <= r.index ==>
              forall k :: 0 <= k < 3 ==> net.nextRef <= LatchTerminals(r.net.latchArray[r.index])[k]
  {
    var id := Avail(net.latchPool);
    var st := FillLatches(Store(net.objs, net.nextRef, net.latchArray), id);
    var l := st.arr[id].(name := name);
    var arr := st.arr[id := l];
    assert LatchesIn(st.objs, arr) by {
      assert forall i :: 0 <= i < |arr| ==> LatchTerminals(arr[i]) == LatchTerminals(st.arr[i]);
    }
    assert forall i :: 0 <= i < |net.latchArray| && i != id ==> arr[i] == st.arr[..|net.latchArray|][i];
    Made(net.(objs := st.objs, nextRef := st.next, latchArray := arr, latchPool := net.latchPool + {id}), id)
  }

  /** `new_latch(name)`: the index joins the latch list, then, after
      `PlaceLatch`, the output terminal is registered and joins the input
      list and the data and enable terminals are registered and join the
      output list. */
  function NewLatch(net: Network, name: string): (r: Made)
    requires ObjsBounded(net) && PoolBounded(net) && LatchesAllocated(net)
    ensures r.index == Avail(net.latchPool) && r.index !in net.latchPool
    ensures r.index < |r.net.latchArray|
    ensures r.net.latchList == net.latchList + [r.index]
  {
    var m := PlaceLatch(net, name);
    var l := m.net.latchArray[m.index];
    assert TerminalsOk(m.net.objs, LatchTerminals(l), LatchKinds);
    var net2 := RegTerminals(m.net, LatchTerminals(l));
    RegTerminalsFrame(m.net, LatchTerminals(l));
    Made(net2.(latchList := net2.latchList + [m.index]), m.index)
  }

  /** What `new_latch` promises: the latch is named and keeps its index,
      its output terminal joins the input list and its data and enable
      terminals the output list, all three are registered, and the latch
      registry stays well formed. */
  lemma NewLatchFacts(net: Network, name: string)
    requires ObjsBounded(net) && PoolBounded(net) && LatchesAllocated(net)
    ensures var r := NewLatch(net, name);
            var l := r.net.latchArray[r.index];
            && r.net.latchPool == net.latchPool + {r.index}
            && |r.net.latchArray| == (if r.index < |net.latchArray| then |net.latchArray| else r.index + 1)
            && (forall i :: 0 <= i < |net.latchArray| && i != r.index ==> r.net.latchArray[i] == net.latchArray[i])
            && l.name == name && l.id == r.index
            && r.net.inputs == net.inputs + [l.output]
            && r.net.outputs == net.outputs + [l.input, l.enable]
            && (forall k :: 0 <= k < 3 ==> Registered(r.net, LatchTerminals(l)[k]))
            && ObjsBounded(r.net) && PoolBounded(r.net) && LatchesAllocated(r.net)
            && r.net.lnodes == net.lnodes && r.net.buckets == net.buckets && r.net.ports == net.ports
  {
    var m := PlaceLatch(net, name);
    var l := m.net.latchArray[m.index];
    var ts := LatchTerminals(l);
    assert TerminalsOk(m.net.objs, ts, LatchKinds);
    var net2 := RegTerminals(m.net, ts);
    RegTerminalsFrame(m.net, ts);
    RegTerminalsNodes(m.net, ts);
    RegTerminalsRegisters(m.net, ts);
    assert KindsKept(m.net.objs, net2.objs);
    LatchesInKept(m.net.objs, net2.objs, m.net.latchArray);
  }

  /** No id in use maps to `x`. */
  predicate Unlisted(net: Network, x: Ref) {
    forall i :: i in net.nodePool && i < |net.nodeArray| ==> net.nodeArray[i] != x
  }

  /** Adding blank objects above the allocation mark keeps slots and fanout
      lists in agreement. */
  lemma GrowFreshFanouts(a: map<Ref, Node>, b: map<Ref, Node>, next: Ref)
    requires FanoutOk(a) && GrowsFresh(a, b, next)
    requires forall x :: x in a ==> x < next
    ensures FanoutOk(b)
  {
    forall x, k | x in b && 0 <= k < |b[x].fanouts|
      ensures b[x].fanouts[k].to in b && b[x].fanouts[k].pos < 2
              && Slot(b[b[x].fanouts[k].to], b[x].fanouts[k].pos) == Some(x)
    {
      assert x in a;
    }
    forall t, p | t in b && 0 <= p < 2 && Slot(b[t], p).Some?
      ensures Slot(b[t], p).value in b && Edge(t, p) in b[Slot(b[t], p).value].fanouts
    {
      assert t in a;
    }
  }

  /** Adding blank objects above the allocation mark keeps the invariant and
      every registration. */
  lemma GrowFreshKeepsValid(a: Network, b: Network)
    requires Valid(a) && GrowsFresh(a.objs, b.objs, a.nextRef)
    requires a.nextRef <= b.nextRef && forall x :: x in b.objs ==> x < b.nextRef
    requires b.nodePool == a.nodePool && b.nodeArray == a.nodeArray
    requires b.lnodes == a.lnodes && b.buckets == a.buckets
    ensures Valid(b)
    ensures forall y :: Registered(a, y) == Registered(b, y)
  {
    assert forall y :: IdOf(b, y) == IdOf(a, y);
    assert forall y :: y in a.objs ==> KeyHash(b, y) == KeyHash(a, y);
    GrowFreshFanouts(a.objs, b.objs, a.nextRef);
  }

  /** One step of `RegOutputs`: registering an unregistered object with no
      fanouts and appending it to the output list keeps the invariant, keeps
      the lists registered when the object has an output kind, changes no
      object attribute but its id and leaves every other object unlisted
      that was. */
  lemma RegOutputStep(net: Network, x: Ref)
    requires Valid(net) && x in net.objs && Unlisted(net, x) && net.objs[x].fanouts == []
    ensures Avail(net.nodePool) <= |net.nodeArray|
    ensures var net1 := RegNode(net, x);
            var net2 := net1.(outputs := net1.outputs + [x]);
            && Valid(net2)
            && (IoOk(net) && IsOutputKind(net.objs[x].kind) ==> IoOk(net2))
            && (forall y :: y in net.objs ==> y in net2.objs && SameButId(net2.objs[y], net.objs[y]))
            && (forall y :: y != x && Unlisted(net, y) ==> Unlisted(net2, y))
  {
    ValidClosed(net);
    RegNodeKeepsValid(net, x);
    var net1 := RegNode(net, x);
    var net2 := net1.(outputs := net1.outputs + [x]);
    ValidFrame(net1, net2);
    if IoOk(net) && IsOutputKind(net.objs[x].kind) {
      IoAppend(net1, net2, x);
    }
  }

  /** The first step of `RegTerminals`, appending to the input list. */
  lemma RegInputStep(net: Network, x: Ref)
    requires Valid(net) && x in net.objs && Unlisted(net, x) && net.objs[x].fanouts == []
    ensures Avail(net.nodePool) <= |net.nodeArray|
    ensures var net1 := RegNode(net, x);
            var net2 := net1.(inputs := net1.inputs + [x]);
            && Valid(net2)
            && (IoOk(net) && IsInputKind(net.objs[x].kind) ==> IoOk(net2))
            && (forall y :: y in net.objs ==> y in net2.objs && SameButId(net2.objs[y], net.objs[y]))
            && (forall y :: y != x && Unlisted(net, y) ==> Unlisted(net2, y))
  {
    ValidClosed(net);
    RegNodeKeepsValid(net, x);
    var net1 := RegNode(net, x);
    var net2 := net1.(inputs := net1.inputs + [x]);
    ValidFrame(net1, net2);
    if IoOk(net) && IsInputKind(net.objs[x].kind) {
      IoAppend(net1, net2, x);
    }
  }

  /** The objects of `xs` are distinct, unregistered and have no fanouts. */
  predicate FreshTargets(net: Network, xs: seq<Ref>) {
    && NoDup(xs)
    && (forall k :: 0 <= k < |xs| ==> xs[k] in net.objs && Unlisted(net, xs[k]) && net.objs[xs[k]].fanouts == [])
  }

  /** Every object of `xs` has an output kind. */
  predicate OutputKinds(net: Network, xs: seq<Ref>) {
    forall k :: 0 <= k < |xs| ==> xs[k] in net.objs && IsOutputKind(net.objs[xs[k]].kind)
  }

  /** Fresh targets stay fresh, and keep their kinds, after another object
      is registered. */
  lemma FreshTargetsTail(net: Network, net2: Network, xs: seq<Ref>)
    requires FreshTargets(net, xs) && |xs| > 0
    requires forall y :: y in net.objs ==> y in net2.objs && SameButId(net2.objs[y], net.objs[y])
    requires forall y :: y != xs[0] && Unlisted(net, y) ==> Unlisted(net2, y)
    ensures FreshTargets(net2, xs[1..])
    ensures OutputKinds(net, xs) ==> OutputKinds(net2, xs[1..])
  {
    NoDupTail(xs);
    forall k | 0 <= k < |xs[1..]|
      ensures xs[1..][k] in net2.objs && Unlisted(net2, xs[1..][k]) && net2.objs[xs[1..][k]].fanouts == []
    {
      assert xs[1..][k] == xs[k + 1] != xs[0];
    }
  }

  /** Registering distinct unregistered objects with no fanouts as outputs
      keeps the invariant, and keeps the lists registered when they have
      output kinds. */
  lemma {:induction false} RegOutputsKeepsValid(net: Network, xs: seq<Ref>)
    requires Valid(net) && FreshTargets(net, xs)
    ensures PoolBounded(net)
    ensures Valid(RegOutputs(net, xs))
    ensures IoOk(net) && OutputKinds(net, xs) ==> IoOk(RegOutputs(net, xs))
    decreases |xs|
  {
    ValidClosed(net);
    if xs != [] {
      RegOutputStep(net, xs[0]);
      var net1 := RegNode(net, xs[0]);
      var net2 := net1.(outputs := net1.outputs + [xs[0]]);
      FreshTargetsTail(net, net2, xs);
      RegOutputsKeepsValid(net2, xs[1..]);
      assert RegOutputs(net, xs) == RegOutputs(net2, xs[1..]);
    }
  }

  /** `RegTerminals` on distinct unregistered objects with no fanouts keeps
      the invariant, and keeps the lists registered when the first terminal
      has an input kind and the rest output kinds. */
  lemma RegTerminalsKeepsValid(net: Network, ts: seq<Ref>)
    requires Valid(net) && FreshTargets(net, ts) && |ts| > 0
    ensures PoolBounded(net)
    ensures Valid(RegTerminals(net, ts))
    ensures IoOk(net) && IsInputKind(net.objs[ts[0]].kind) && OutputKinds(net, ts[1..]) ==>
              IoOk(RegTerminals(net, ts))
  {
    ValidClosed(net);
    RegInputStep(net, ts[0]);
    var net1 := RegNode(net, ts[0]);
    var net2 := net1.(inputs := net1.inputs + [ts[0]]);
    FreshTargetsTail(net, net2, ts);
    if OutputKinds(net, ts[1..]) {
      assert OutputKinds(net2, ts[1..]);
    }
    RegOutputsKeepsValid(net2, ts[1..]);
    assert RegTerminals(net, ts) == RegOutputs(net2, ts[1..]);
  }

  /** The D-FF and latch lists are not part of the invariant. */
  lemma RegistryListsFrame(a: Network, b: Network)
    requires Valid(a) && IoOk(a)
    requires b == a.(dffList := b.dffList, latchList := b.latchList)
    ensures Valid(b) && IoOk(b)
  {
    ValidFrame(a, b);
  }

  /** A D-FF placed past the end of the D-FF array brings five fresh
      terminal objects: the network stays valid and they are ready to be
      registered, the first as an input and the rest as outputs. */
  lemma PlaceDffFresh(net: Network, name: string)
    requires Valid(net) && IoOk(net) && DffsAllocated(net)
    requires |net.dffArray| <= Avail(net.dffPool)
    ensures var m := PlaceDff(net, name);
            var ts := DffTerminals(m.net.dffArray[m.index]);
            && Valid(m.net) && IoOk(m.net) && FreshTargets(m.net, ts)
            && IsInputKind(m.net.objs[ts[0]].kind) && OutputKinds(m.net, ts[1..])
  {
    var m := PlaceDff(net, name);
    GrowFreshKeepsValid(net, m.net);
    IoTransfer(net, m.net);
    var ts := DffTerminals(m.net.dffArray[m.index]);
    assert TerminalsOk(m.net.objs, ts, DffKinds);
    forall k | 0 <= k < 5 ensures ts[k] in m.net.objs && Unlisted(m.net, ts[k]) && m.net.objs[ts[k]].fanouts == [] {
      assert ts[k] !in net.objs;
    }
  }

  /** A D-FF made from fresh objects (its index lies past the D-FF array)
      keeps the invariant and the registration of the input and output
      lists. */
  lemma NewDffKeepsValid(net: Network, name: string)
    requires Valid(net) && IoOk(net) && DffsAllocated(net)
    requires |net.dffArray| <= Avail(net.dffPool)
    ensures PoolBounded(net)
    ensures Valid(NewDff(net, name).net) && IoOk(NewDff(net, name).net)
  {
    ValidClosed(net);
    PlaceDffFresh(net, name);
    var m := PlaceDff(net, name);
    var ts := DffTerminals(m.net.dffArray[m.index]);
    RegTerminalsKeepsValid(m.net, ts);
    var net2 := RegTerminals(m.net, ts);
    RegistryListsFrame(net2, NewDff(net, name).net);
  }

  /** The latch counterpart of `PlaceDffFresh`. */
  lemma PlaceLatchFresh(net: Network, name: string)
    requires Valid(net) && IoOk(net) && LatchesAllocated(net)
    requires |net.latchArray| <= Avail(net.latchPool)
    ensures var m := PlaceLatch(net, name);
            var ts := LatchTerminals(m.net.latchArray[m.index]);
            && Valid(m.net) && IoOk(m.net) && FreshTargets(m.net, ts)
            && IsInputKind(m.net.objs[ts[0]].kind) && OutputKinds(m.net, ts[1..])
  {
    var m := PlaceLatch(net, name);
    GrowFreshKeepsValid(net, m.net);
    IoTransfer(net, m.net);
    var ts := LatchTerminals(m.net.latchArray[m.index]);
    assert TerminalsOk(m.net.objs, ts, LatchKinds);
    forall k | 0 <= k < 3 ensures ts[k] in m.net.objs && Unlisted(m.net, ts[k]) && m.net.objs[ts[k]].fanouts == [] {
      assert ts[k] !in net.objs;
    }
  }

  /** A latch made from fresh objects keeps the invariant and the
      registration of the input and output lists. */
  lemma NewLatchKeepsValid(net: Network, name: string)
    requires Valid(net) && IoOk(net) && LatchesAllocated(net)
    requires |net.latchArray| <= Avail(net.latchPool)
    ensures PoolBounded(net)
    ensures Valid(NewLatch(net, name).net) && IoOk(NewLatch(net, name).net)
  {
    ValidClosed(net);
    PlaceLatchFresh(net, name);
    var m := PlaceLatch(net, name);
    var ts := LatchTerminals(m.net.latchArray[m.index]);
    RegTerminalsKeepsValid(m.net, ts);
    var net2 := RegTerminals(m.net, ts);
    RegistryListsFrame(net2, NewLatch(net, name).net);
  }

  /** `clear()` as written: the name, ports, D-FF and latch registries, the
      node-id pool and the input, output and logic-node lists are emptied
      and the level cache invalidated; the node, D-FF and latch arrays, the
      node objects and the hash chains are kept. */
  function ClearAsWritten(net: Network): (r: Network)
    ensures r.name == "" && r.ports == [] && r.inputs == [] && r.outputs == [] && r.lnodes == []
    ensures r.dffList == [] && r.latchList == [] && r.levelCache == 0
    ensures Avail(r.nodePool) == 0 && Avail(r.dffPool) == 0 && Avail(r.latchPool) == 0
    ensures r.objs == net.objs && r.nodeArray == net.nodeArray && r.buckets == net.buckets
    ensures r.dffArray == net.dffArray && r.latchArray == net.latchArray
  {
    net.(name := "", ports := [], dffPool := {}, dffList := [], latchPool := {}, latchList := [],
         nodePool := {}, inputs := [], outputs := [], lnodes := [], levelCache := 0)
  }

  /** `clear()` with the hash chains emptied as well; the table keeps its
      size. */
  function Clear(net: Network): (r: Network)
    ensures r == ClearAsWritten(net).(buckets := r.buckets)
    ensures |r.buckets| == |net.buckets|
    ensures forall i :: 0 <= i < |r.buckets| ==> r.buckets[i] == []
  {
    ClearAsWritten(net).(buckets := seq(|net.buckets|, _ => []))
  }

  /** Clearing keeps the invariant, and the D-FF and latch arrays keep their
      terminal objects. */
  lemma ClearKeepsValid(net: Network)
    requires Valid(net)
    ensures Valid(Clear(net)) && IoOk(Clear(net))
    ensures DffsAllocated(net) ==> DffsAllocated(Clear(net))
    ensures LatchesAllocated(net) ==> LatchesAllocated(Clear(net))
  {
  }

  /** As written, `clear()` leaves every logic node in the hash chains while
      emptying the logic-node list, so the table no longer agrees with it. */
  lemma ClearAsWrittenBreaksTable(net: Network)
    requires Valid(net) && |net.lnodes| > 0
    ensures !TableOk(ClearAsWritten(net))
  {
    var r := ClearAsWritten(net);
    var x := net.lnodes[0];
    assert x in net.buckets[BucketOf(net, x)];
    assert BucketOf(r, x) == BucketOf(net, x);
    var k :| 0 <= k < |r.buckets[BucketOf(r, x)]| && r.buckets[BucketOf(r, x)][k] == x;
    assert r.buckets[BucketOf(r, x)][k] !in r.lnodes;
  }

  /** A network with nothing in it and no hash table yet. */
  const Empty: Network :=
    Network("", map[], 0, [], {}, [], [], [], [], [], {}, [], [], {}, [], [], 0, 0)

  /** The constructor: an empty network with a 1024-bucket table and a load
      limit of 1843 (1.8 times the size). */
  function NewNetwork(): (r: Network)
    ensures Valid(r) && IoOk(r) && DffsAllocated(r) && LatchesAllocated(r)
    ensures |r.buckets| == 1024 && r.nextLimit == 1843
    ensures r.objs == map[] && r.lnodes == [] && r.inputs == [] && r.outputs == []
    ensures forall i :: 0 <= i < |r.buckets| ==> r.buckets[i] == []
  {
    var r := AllocTable(Empty, 1024);
    assert GrowSize(1024, 1024) == 1024;
    assert r.buckets == seq(1024, _ => []);
    r
  }
}
