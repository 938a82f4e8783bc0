/** `BdNetwork::connect`: the one place where fanin slots and fanout lists
    change. */
module BdnConnect {
  import opened Base
  import opened Canon
  import opened BdnTypes

  /** The attributes `connect` leaves alone: everything but the wiring. */
  predicate SameAttrs(a: Node, b: Node) {
    a.kind == b.kind && a.id == b.id && a.fcode == b.fcode && a.inv == b.inv && a.level == b.level
  }

  /** `connect(from, to, pos)`: `from` (possibly null) becomes fanin `pos` of
      `to`; the edge leaves the fanout list of the previous fanin and is
      appended to that of `from`; the level cache is invalidated. */
  function Connect(net: Network, from: Option<Ref>, to: Ref, pos: nat): (r: Network)
    requires to in net.objs && pos < 2
    requires from.Some? ==> from.value in net.objs
    ensures r == net.(objs := r.objs, levelCache := 0)
    ensures r.objs == Rewire(net.objs, from, to, pos)
  {
    net.(objs := Rewire(net.objs, from, to, pos), levelCache := 0)
  }

  /** The node-object part of `connect`. */
  function Rewire(objs: map<Ref, Node>, from: Option<Ref>, to: Ref, pos: nat): (r: map<Ref, Node>)
    requires to in objs && pos < 2
    requires from.Some? ==> from.value in objs
    ensures r.Keys == objs.Keys
    ensures forall x :: x in objs ==> SameAttrs(r[x], objs[x])
    // the slot now holds `from`; no other slot changed
    ensures Slot(r[to], pos) == from
    ensures forall x, p :: x in objs && (x != to || p != pos) ==> Slot(r[x], p) == Slot(objs[x], p)
    // the edge is appended to the new source's fanouts ...
    ensures from.Some? ==>
              r[from.value].fanouts
              == (if Slot(objs[to], pos) == from
                  then Remove(objs[from.value].fanouts, Edge(to, pos))
                  else objs[from.value].fanouts) + [Edge(to, pos)]
    // ... and erased from the previous source's
    ensures Slot(objs[to], pos).Some? && Slot(objs[to], pos) != from && Slot(objs[to], pos).value in objs ==>
              r[Slot(objs[to], pos).value].fanouts == Remove(objs[Slot(objs[to], pos).value].fanouts, Edge(to, pos))
    ensures forall x :: x in objs && Some(x) != from && Some(x) != Slot(objs[to], pos) ==>
              r[x].fanouts == objs[x].fanouts
  {
    map x | x in objs :: RewireNode(objs[x], x, Slot(objs[to], pos), from, to, pos)
  }

  /** Node `x` after `connect`: the slot of `to` is set; the edge leaves the
      list of the previous source `prev` and is appended to that of `from`. */
  function RewireNode(n: Node, x: Ref, prev: Option<Ref>, from: Option<Ref>, to: Ref, pos: nat): Node
    requires pos < 2
  {
    var n1 := if x == to then SetSlot(n, pos, from) else n;
    var fo := if prev == Some(x) then Remove(n.fanouts, Edge(to, pos)) else n.fanouts;
    n1.(fanouts := if from == Some(x) then fo + [Edge(to, pos)] else fo)
  }

  /** `connect` keeps fanin slots and fanout lists in agreement. */
  lemma ConnectKeepsFanouts(net: Network, from: Option<Ref>, to: Ref, pos: nat)
    requires to in net.objs && pos < 2
    requires from.Some? ==> from.value in net.objs
    requires FanoutOk(net.objs)
    ensures FanoutOk(Connect(net, from, to, pos).objs)
  {
    OnlyHolderLists(net.objs, to, pos);
    RewireDistinct(net.objs, from, to, pos);
    RewirePointsBack(net.objs, from, to, pos);
    RewireListed(net.objs, from, to, pos);
  }

  /** An edge is listed only by the node in its slot. */
  lemma OnlyHolderLists(objs: map<Ref, Node>, to: Ref, pos: nat)
    requires EdgesPointBack(objs)
    requires to in objs && pos < 2
    ensures forall y :: y in objs && Edge(to, pos) in objs[y].fanouts ==> Slot(objs[to], pos) == Some(y)
  {
    forall y | y in objs && Edge(to, pos) in objs[y].fanouts ensures Slot(objs[to], pos) == Some(y) {
      var k :| 0 <= k < |objs[y].fanouts| && objs[y].fanouts[k] == Edge(to, pos);
    }
  }

  lemma AppendNoDup<T>(s: seq<T>, x: T)
    requires NoDup(s) && x !in s
    ensures NoDup(s + [x])
  {
    forall i, j | 0 <= i < j < |s + [x]| ensures (s + [x])[i] != (s + [x])[j] {
      assert (s + [x])[i] == s[i];
      if j < |s| {
        assert (s + [x])[j] == s[j];
      }
    }
  }

  lemma RewireDistinct(objs: map<Ref, Node>, from: Option<Ref>, to: Ref, pos: nat)
    requires to in objs && pos < 2
    requires from.Some? ==> from.value in objs
    requires FanoutsDistinct(objs)
    requires forall y :: y in objs && Edge(to, pos) in objs[y].fanouts ==> Slot(objs[to], pos) == Some(y)
    ensures FanoutsDistinct(Rewire(objs, from, to, pos))
  {
    var r := Rewire(objs, from, to, pos);
    var e := Edge(to, pos);
    var prev := Slot(objs[to], pos);
    forall x | x in r ensures NoDup(r[x].fanouts) {
      var fo := if prev == Some(x) then Remove(objs[x].fanouts, e) else objs[x].fanouts;
      RemoveNoDup(objs[x].fanouts, e);
      assert NoDup(fo);
      if from == Some(x) {
        AppendNoDup(fo, e);
      }
    }
  }

  lemma RewirePointsBack(objs: map<Ref, Node>, from: Option<Ref>, to: Ref, pos: nat)
    requires to in objs && pos < 2
    requires from.Some? ==> from.value in objs
    requires EdgesPointBack(objs)
    requires forall y :: y in objs && Edge(to, pos) in objs[y].fanouts ==> Slot(objs[to], pos) == Some(y)
    ensures EdgesPointBack(Rewire(objs, from, to, pos))
  {
    var r := Rewire(objs, from, to, pos);
    forall x, k | x in r && 0 <= k < |r[x].fanouts|
      ensures r[x].fanouts[k].to in r && r[x].fanouts[k].pos < 2
              && Slot(r[r[x].fanouts[k].to], r[x].fanouts[k].pos) == Some(x)
    {
      RewirePointsBackAt(objs, from, to, pos, x, r[x].fanouts[k]);
    }
  }

  /** One edge of the rewired lists points back at its source. */
  lemma RewirePointsBackAt(objs: map<Ref, Node>, from: Option<Ref>, to: Ref, pos: nat, x: Ref, d: Edge)
    requires to in objs && pos < 2
    requires from.Some? ==> from.value in objs
    requires EdgesPointBack(objs)
    requires x in objs && d in Rewire(objs, from, to, pos)[x].fanouts
    ensures var r := Rewire(objs, from, to, pos);
            d.to in r && d.pos < 2 && Slot(r[d.to], d.pos) == Some(x)
  {
    if d != Edge(to, pos) {
      var fo := objs[x].fanouts;
      assert d in fo;
      var k :| 0 <= k < |fo| && fo[k] == d;
    }
  }

  lemma RewireListed(objs: map<Ref, Node>, from: Option<Ref>, to: Ref, pos: nat)
    requires to in objs && pos < 2
    requires from.Some? ==> from.value in objs
    requires SlotsListed(objs)
    ensures SlotsListed(Rewire(objs, from, to, pos))
  {
    var r := Rewire(objs, from, to, pos);
    forall t, p | t in r && 0 <= p < 2 && Slot(r[t], p).Some?
      ensures Slot(r[t], p).value in r && Edge(t, p) in r[Slot(r[t], p).value].fanouts
    {
      if t != to || p != pos {
        var y := Slot(objs[t], p).value;
        assert Edge(t, p) in objs[y].fanouts;
        assert Edge(t, p) != Edge(to, pos);
      }
    }
  }
}
