/** `BdNetwork::sort`, `BdNetwork::rsort` and `BdNetwork::level`: the
    forward and reverse topological orders of the logic nodes, and the depth
    of the network with its cache. */
module BdnOrder {
  import opened Base
  import opened Canon
  import opened BdnTypes
  import opened BdnValid
  import TruthTable
  import BdnLogic
  import BdnBuild

  /** The elements of a sequence, as a set. */
  function SetOf<T>(s: seq<T>): set<T> {
    set x | x in s
  }

  /** A duplicate-free sequence drawn from `s` is no longer than `s`. */
  lemma {:induction false} NoDupWithin<T>(xs: seq<T>, s: set<T>)
    requires NoDup(xs) && forall i :: 0 <= i < |xs| ==> xs[i] in s
    ensures |xs| <= |s|
    decreases |xs|
  {
    if |xs| > 0 {
      NoDupTail(xs);
      forall i | 0 <= i < |xs[1..]| ensures xs[1..][i] in s - {xs[0]} {
        assert xs[1..][i] == xs[i + 1];
      }
      NoDupWithin(xs[1..], s - {xs[0]});
    }
  }

  /** One more element of a sequence that `t` extends. */
  lemma PrefixGrows<T>(s: seq<T>, t: seq<T>, i: nat)
    requires i < |s| <= |t| && t[..|s|] == s
    ensures SetOf(t[..i + 1]) == SetOf(s[..i]) + {s[i]}
  {
    assert t[..i + 1] == s[..i] + [s[i]];
  }

  lemma PrefixWithin<T>(s: seq<T>, i: nat)
    requires i < |s|
    ensures SetOf(s[..i]) + {s[i]} <= SetOf(s)
  {
    forall x | x in SetOf(s[..i]) ensures x in SetOf(s) {
      var k :| 0 <= k < i && s[..i][k] == x;
      assert s[k] == x;
    }
  }

  // ---------------------------------------------------------------------
  // sort

  /** `x` is a logic node both of whose fanins are marked: what `sort_sub`
      checks before emitting a fanout. */
  predicate Fed(objs: map<Ref, Node>, x: Ref, marks: set<Ref>) {
    && x in objs && objs[x].kind == Logic
    && objs[x].fanin0.Some? && objs[x].fanin1.Some?
    && objs[x].fanin0.value in marks && objs[x].fanin1.value in marks
  }

  /** Every emitted node is a logic node whose fanins are among `ins` or
      were emitted before it. */
  predicate Topo(objs: map<Ref, Node>, ins: set<Ref>, list: seq<Ref>) {
    forall k :: 0 <= k < |list| ==> Fed(objs, list[k], ins + SetOf(list[..k]))
  }

  /** The state `sort` keeps: the marks are the marked inputs and the emitted
      nodes, each emitted once, in topological order. */
  predicate SortInv(objs: map<Ref, Node>, ins: set<Ref>, marks: set<Ref>, list: seq<Ref>) {
    marks == ins + SetOf(list) && NoDup(list) && Topo(objs, ins, list)
  }

  /** Every fanout of a processed node that has both fanins processed is
      marked. */
  predicate Closed(objs: map<Ref, Node>, done: set<Ref>, marks: set<Ref>) {
    forall p, j ::
      (p in done && p in objs && 0 <= j < |objs[p].fanouts| && Fed(objs, objs[p].fanouts[j].to, done)) ==>
        objs[p].fanouts[j].to in marks
  }

  lemma TopoAppend(objs: map<Ref, Node>, ins: set<Ref>, list: seq<Ref>, x: Ref)
    requires Topo(objs, ins, list) && Fed(objs, x, ins + SetOf(list))
    ensures Topo(objs, ins, list + [x])
  {
    var l := list + [x];
    forall k | 0 <= k < |l| ensures Fed(objs, l[k], ins + SetOf(l[..k])) {
      if k < |list| {
        assert l[..k] == list[..k];
      } else {
        assert l[..k] == list;
      }
    }
  }

  lemma TopoGrow(objs: map<Ref, Node>, ins: set<Ref>, ins': set<Ref>, list: seq<Ref>)
    requires Topo(objs, ins, list) && ins <= ins'
    ensures Topo(objs, ins', list)
  {
    forall k | 0 <= k < |list| ensures Fed(objs, list[k], ins' + SetOf(list[..k])) {
      assert Fed(objs, list[k], ins + SetOf(list[..k]));
    }
  }

  lemma SortInvAppend(objs: map<Ref, Node>, ins: set<Ref>, marks: set<Ref>, list: seq<Ref>, x: Ref)
    requires SortInv(objs, ins, marks, list) && x !in marks && Fed(objs, x, marks)
    ensures SortInv(objs, ins, marks + {x}, list + [x])
  {
    TopoAppend(objs, ins, list, x);
    AppendNoDup(list, x);
    assert SetOf(list + [x]) == SetOf(list) + {x};
  }

  lemma AppendNoDup<T>(s: seq<T>, x: T)
    requires NoDup(s) && x !in s
    ensures NoDup(s + [x])
  {
    forall i, j | 0 <= i < j < |s + [x]| ensures (s + [x])[i] != (s + [x])[j] {
      assert (s + [x])[i] == s[i];
      if j < |s| {
        assert (s + [x])[j] == s[j];
      }
    }
  }

  /** `sort_sub(node, marks, node_list)`: every fanout of `node` that is a
      logic node with both fanins marked, and not yet marked itself, is marked
      and emitted, in fanout-list order. */
  method SortSub(objs: map<Ref, Node>, node: Ref, ins: set<Ref>, marks: set<Ref>, list: seq<Ref>)
    returns (marks': set<Ref>, list': seq<Ref>)
    requires node in objs && EdgesPointBack(objs)
    requires SortInv(objs, ins, marks, list)
    ensures SortInv(objs, ins, marks', list')
    ensures |list| <= |list'| && list'[..|list|] == list && marks <= marks'
    // no fanout of `node` that was ready is left behind
    ensures forall j :: 0 <= j < |objs[node].fanouts| && Fed(objs, objs[node].fanouts[j].to, marks) ==>
              objs[node].fanouts[j].to in marks'
  {
    var fo := objs[node].fanouts;
    marks', list' := marks, list;
    var j := 0;
    while j < |fo|
      invariant 0 <= j <= |fo|
      invariant SortInv(objs, ins, marks', list')
      invariant |list| <= |list'| && list'[..|list|] == list && marks <= marks'
      invariant forall i :: 0 <= i < j && Fed(objs, fo[i].to, marks) ==> fo[i].to in marks'
    {
      ghost var before, prev := marks', list';
      marks', list' := Visit(objs, fo[j].to, ins, marks', list');
      ReadyStep(objs, fo, j, marks, before, marks');
      PrefixTrans(list, prev, list');
      j := j + 1;
    }
  }

  /** The ready fanouts among the first `j + 1` are marked once the first
      `j` were and the `j`-th has been visited. */
  lemma ReadyStep(objs: map<Ref, Node>, fo: seq<Edge>, j: nat, marks: set<Ref>, before: set<Ref>, after: set<Ref>)
    requires j < |fo| && marks <= before <= after
    requires forall i :: 0 <= i < j && Fed(objs, fo[i].to, marks) ==> fo[i].to in before
    requires Fed(objs, fo[j].to, before) ==> fo[j].to in after
    ensures forall i :: 0 <= i < j + 1 && Fed(objs, fo[i].to, marks) ==> fo[i].to in after
  {
  }

  /** One fanout seen by `sort_sub`: emitted when it is ready and not yet
      marked. */
  method Visit(objs: map<Ref, Node>, o: Ref, ins: set<Ref>, marks: set<Ref>, list: seq<Ref>)
    returns (marks': set<Ref>, list': seq<Ref>)
    requires SortInv(objs, ins, marks, list)
    ensures SortInv(objs, ins, marks', list')
    ensures |list| <= |list'| && list'[..|list|] == list && marks <= marks'
    ensures Fed(objs, o, marks) ==> o in marks'
  {
    if o !in marks && Fed(objs, o, marks) {
      SortInvAppend(objs, ins, marks, list, o);
      marks', list' := marks + {o}, list + [o];
      assert list'[..|list|] == list;
    } else {
      marks', list' := marks, list;
    }
  }

  /** Marking and processing one more node keeps the processed part closed. */
  lemma ClosedStep(objs: map<Ref, Node>, done: set<Ref>, marks: set<Ref>, marks': set<Ref>, p: Ref)
    requires SlotsListed(objs) && p in objs
    requires Closed(objs, done, marks) && marks <= marks' && done + {p} <= marks
    requires forall j :: 0 <= j < |objs[p].fanouts| && Fed(objs, objs[p].fanouts[j].to, marks) ==>
               objs[p].fanouts[j].to in marks'
    ensures Closed(objs, done + {p}, marks')
  {
    forall q, j | q in done + {p} && q in objs && 0 <= j < |objs[q].fanouts| &&
      Fed(objs, objs[q].fanouts[j].to, done + {p})
      ensures objs[q].fanouts[j].to in marks'
    {
      var o := objs[q].fanouts[j].to;
      if q == p {
      } else if Fed(objs, o, done) {
      } else {
        // one fanin of `o` is `p`, so `o` is among the fanouts of `p`
        var pos := if objs[o].fanin0.value == p then 0 else 1;
        assert Slot(objs[o], pos) == Some(p);
        assert Edge(o, pos) in objs[p].fanouts;
        var i :| 0 <= i < |objs[p].fanouts| && objs[p].fanouts[i] == Edge(o, pos);
      }
    }
  }

  /** The first loop of `sort` for one input: mark it, then emit its ready
      fanouts. */
  method SeedInput(objs: map<Ref, Node>, node: Ref, ins: set<Ref>, marks: set<Ref>, list: seq<Ref>)
    returns (marks': set<Ref>, list': seq<Ref>)
    requires FanoutOk(objs) && node in objs
    requires SortInv(objs, ins, marks, list) && Closed(objs, ins, marks)
    ensures SortInv(objs, ins + {node}, marks', list') && Closed(objs, ins + {node}, marks')
  {
    TopoGrow(objs, ins, ins + {node}, list);
    marks', list' := SortSub(objs, node, ins + {node}, marks + {node}, list);
    ClosedStep(objs, ins, marks + {node}, marks', node);
  }

  /** The second loop of `sort` for the node at `rpos`: emit its ready
      fanouts. */
  method Drain(objs: map<Ref, Node>, ins: set<Ref>, marks: set<Ref>, list: seq<Ref>, rpos: nat)
    returns (marks': set<Ref>, list': seq<Ref>)
    requires FanoutOk(objs) && rpos < |list|
    requires SortInv(objs, ins, marks, list) && Closed(objs, ins + SetOf(list[..rpos]), marks)
    ensures SortInv(objs, ins, marks', list') && |list| <= |list'| && list'[..|list|] == list
    ensures Closed(objs, ins + SetOf(list'[..rpos + 1]), marks')
  {
    var node := list[rpos];
    var done := ins + SetOf(list[..rpos]);
    assert Fed(objs, node, done);
    PrefixWithin(list, rpos);
    assert done + {node} <= marks;
    marks', list' := SortSub(objs, node, ins, marks, list);
    ClosedStep(objs, done, marks, marks', node);
    PrefixGrows(list, list', rpos);
    assert ins + SetOf(list'[..rpos + 1]) == done + {node};
  }

  /** When every marked node has been processed, every node that is ready
      is marked. */
  lemma ClosedFixpoint(objs: map<Ref, Node>, marks: set<Ref>)
    requires SlotsListed(objs) && Closed(objs, marks, marks)
    ensures forall x :: Fed(objs, x, marks) ==> x in marks
  {
    forall x | Fed(objs, x, marks) ensures x in marks {
      var f0 := objs[x].fanin0.value;
      assert Slot(objs[x], 0) == Some(f0);
      var j :| 0 <= j < |objs[f0].fanouts| && objs[f0].fanouts[j] == Edge(x, 0);
    }
  }

  /** The first loop of `sort`: every input is marked and processed. */
  method SeedInputs(objs: map<Ref, Node>, inputs: seq<Ref>) returns (marks: set<Ref>, list: seq<Ref>)
    requires FanoutOk(objs) && forall k :: 0 <= k < |inputs| ==> inputs[k] in objs
    ensures SortInv(objs, SetOf(inputs), marks, list) && Closed(objs, SetOf(inputs), marks)
  {
    marks, list := {}, [];
    var ins: set<Ref> := {};
    var i := 0;
    while i < |inputs|
      invariant 0 <= i <= |inputs|
      invariant ins == SetOf(inputs[..i])
      invariant SortInv(objs, ins, marks, list) && Closed(objs, ins, marks)
    {
      var node := inputs[i];
      marks, list := SeedInput(objs, node, ins, marks, list);
      PrefixGrows(inputs, inputs, i);
      ins := ins + {node};
      i := i + 1;
    }
    assert inputs[..i] == inputs;
  }

  /** The second loop of `sort`: the emitted nodes are processed in order
      until none is left. */
  method DrainAll(objs: map<Ref, Node>, ins: set<Ref>, marks0: set<Ref>, list0: seq<Ref>)
    returns (marks: set<Ref>, list: seq<Ref>)
    requires FanoutOk(objs)
    requires SortInv(objs, ins, marks0, list0) && Closed(objs, ins, marks0)
    ensures SortInv(objs, ins, marks, list) && Closed(objs, marks, marks)
  {
    marks, list := marks0, list0;
    var rpos := 0;
    assert list[..0] == [];
    assert ins + SetOf(list[..0]) == ins;
    while rpos < |list|
      invariant 0 <= rpos <= |list|
      invariant SortInv(objs, ins, marks, list)
      invariant Closed(objs, ins + SetOf(list[..rpos]), marks)
      decreases |objs| - rpos
    {
      NoDupWithin(list, objs.Keys);
      marks, list := Drain(objs, ins, marks, list, rpos);
      rpos := rpos + 1;
    }
    assert list[..rpos] == list;
  }

  /** `sort(node_list)`: the logic nodes in an order where every node comes
      after its fanins; the inputs seed the marks. */
  method Sort(net: Network) returns (list: seq<Ref>)
    requires FanoutOk(net.objs)
    requires forall k :: 0 <= k < |net.inputs| ==> net.inputs[k] in net.objs
    ensures NoDup(list)
    ensures Topo(net.objs, SetOf(net.inputs), list)
    // nothing that could still be emitted was left out
    ensures forall x :: Fed(net.objs, x, SetOf(net.inputs) + SetOf(list)) ==>
              x in SetOf(net.inputs) + SetOf(list)
  {
    var marks, l := SeedInputs(net.objs, net.inputs);
    marks, list := DrainAll(net.objs, SetOf(net.inputs), marks, l);
    ClosedFixpoint(net.objs, marks);
  }

  /** The logic-node list is in creation order: each node's fanins are
      inputs or nodes listed before it.  A network built only through
      `new_logic` has this shape. */
  predicate CreatedInOrder(net: Network) {
    Topo(net.objs, SetOf(net.inputs), net.lnodes)
  }

  /** `sort`'s closure property: every node whose fanins are marked inputs
      or emitted nodes was emitted. */
  ghost predicate SortClosed(net: Network, list: seq<Ref>) {
    forall x :: Fed(net.objs, x, SetOf(net.inputs) + SetOf(list)) ==>
      x in SetOf(net.inputs) + SetOf(list)
  }

  /** An order with `sort`'s closure property contains every listed logic
      node of a network built in creation order. */
  lemma SortEmitsListed(net: Network, list: seq<Ref>)
    requires CreatedInOrder(net)
    requires forall k :: 0 <= k < |net.inputs| ==> net.inputs[k] in net.objs && net.objs[net.inputs[k]].kind != Logic
    requires SortClosed(net, list)
    ensures forall k :: 0 <= k < |net.lnodes| ==> net.lnodes[k] in list
  {
    forall k | 0 <= k < |net.lnodes| ensures net.lnodes[k] in list {
      ListedEmitted(net, list, k);
    }
  }

  /** Node `n` of the list is emitted, by strong induction on `n`. */
  lemma {:induction false} ListedEmitted(net: Network, list: seq<Ref>, n: nat)
    requires CreatedInOrder(net) && n < |net.lnodes|
    requires forall k :: 0 <= k < |net.inputs| ==> net.inputs[k] in net.objs && net.objs[net.inputs[k]].kind != Logic
    requires SortClosed(net, list)
    ensures net.lnodes[n] in list
    decreases n
  {
    var x := net.lnodes[n];
    var ins := SetOf(net.inputs);
    var pre := net.lnodes[..n];
    assert Fed(net.objs, x, ins + SetOf(pre));
    forall y | y in SetOf(pre) ensures y in SetOf(list) {
      var k :| 0 <= k < |pre| && pre[k] == y;
      ListedEmitted(net, list, k);
    }
    FedGrows(net.objs, x, ins + SetOf(pre), ins + SetOf(list));
    assert x in ins + SetOf(list);
    assert x !in ins;
  }

  /** `sort`'s count assertion: in a network built in creation order with
      every logic node listed, an order with `sort`'s properties holds
      exactly the listed logic nodes, as many as `lnode_num()`. */
  lemma SortCountHolds(net: Network, list: seq<Ref>)
    requires CreatedInOrder(net) && LogicListed(net) && NoDup(net.lnodes)
    requires forall k :: 0 <= k < |net.inputs| ==> net.inputs[k] in net.objs && net.objs[net.inputs[k]].kind != Logic
    requires NoDup(list) && Topo(net.objs, SetOf(net.inputs), list) && SortClosed(net, list)
    ensures SetOf(list) == SetOf(net.lnodes)
    ensures |list| == |net.lnodes|
  {
    SortEmitsListed(net, list);
    forall k | 0 <= k < |list| ensures list[k] in SetOf(net.lnodes) {
      assert Fed(net.objs, list[k], SetOf(net.inputs) + SetOf(list[..k]));
    }
    NoDupWithin(list, SetOf(net.lnodes));
    NoDupWithin(net.lnodes, SetOf(list));
    SetOfBound(list);
    SetOfBound(net.lnodes);
  }

  /** A sequence has no more distinct elements than positions. */
  lemma {:induction false} SetOfBound<T>(s: seq<T>)
    ensures |SetOf(s)| <= |s|
    decreases |s|
  {
    if |s| > 0 {
      SetOfBound(s[1..]);
      assert SetOf(s) == SetOf(s[1..]) + {s[0]};
    }
  }

  /** `Fed` only asks more marks to hold fanins already marked. */
  lemma FedGrows(objs: map<Ref, Node>, x: Ref, a: set<Ref>, b: set<Ref>)
    requires a <= b && Fed(objs, x, a)
    ensures Fed(objs, x, b)
  {
  }

  // ---------------------------------------------------------------------
  // networks built in creation order

  /** Every logic node object is on the logic-node list. */
  predicate LogicListed(net: Network) {
    forall x :: x in net.objs && net.objs[x].kind == Logic ==> x in net.lnodes
  }

  /** The order reads only kinds and fanins. */
  lemma TopoFrame(a: map<Ref, Node>, b: map<Ref, Node>, ins: set<Ref>, list: seq<Ref>)
    requires Topo(a, ins, list)
    requires forall y :: y in a ==> y in b && SameLogic(b[y], a[y])
    ensures Topo(b, ins, list)
  {
    forall k | 0 <= k < |list| ensures Fed(b, list[k], ins + SetOf(list[..k])) {
      assert Fed(a, list[k], ins + SetOf(list[..k]));
    }
  }

  /** A new network is trivially in creation order. */
  lemma NewNetworkInOrder()
    ensures CreatedInOrder(BdnBuild.NewNetwork()) && LogicListed(BdnBuild.NewNetwork())
  {
  }

  /** `new_logic` on operands that are inputs or listed logic nodes keeps
      the creation order and every logic node listed: a node it adds comes
      last and reads only inputs and earlier nodes. */
  lemma NewLogicKeepsOrder(net: Network, f: TruthTable.FCode, h0: Handle, h1: Handle)
    requires Valid(net) && BdnLogic.Operand(net, h0) && BdnLogic.Operand(net, h1)
    requires CreatedInOrder(net) && LogicListed(net)
    requires h0.node.Some? ==> h0.node.value in net.inputs || h0.node.value in net.lnodes
    requires h1.node.Some? ==> h1.node.value in net.inputs || h1.node.value in net.lnodes
    ensures BdnLogic.Ready(net) && BdnLogic.HandleIn(net, h0) && BdnLogic.HandleIn(net, h1)
    ensures var r := BdnLogic.NewLogic(net, f, h0, h1);
            CreatedInOrder(r.net) && LogicListed(r.net)
  {
    BdnLogic.NewLogicExtends(net, f, h0, h1);
    BdnLogic.NewLogicFrame(net, f, h0, h1);
    var r := BdnLogic.NewLogic(net, f, h0, h1);
    if r.net != net {
      BdnLogic.NewLogicAdds(net, f, h0, h1);
      BdnLogic.NewLogicShape(net, f, h0, h1);
      var c := Canonicalize(f, h0, h1, Ids(net));
      assert c.Gate?;
      AppendKeepsOrder(net, r.net, net.nextRef);
    }
  }

  /** Appending to the logic-node list a node that reads only inputs and
      listed nodes, and changing no existing object's kind or fanins, keeps
      the creation order and every logic node listed. */
  lemma AppendKeepsOrder(a: Network, b: Network, n: Ref)
    requires CreatedInOrder(a) && LogicListed(a)
    requires b.lnodes == a.lnodes + [n] && b.inputs == a.inputs && b.objs.Keys == a.objs.Keys + {n}
    requires forall y :: y in a.objs ==> y in b.objs && SameLogic(b.objs[y], a.objs[y])
    requires Fed(b.objs, n, SetOf(a.inputs) + SetOf(a.lnodes))
    ensures CreatedInOrder(b) && LogicListed(b)
  {
    var ins := SetOf(a.inputs);
    TopoFrame(a.objs, b.objs, ins, a.lnodes);
    TopoAppend(b.objs, ins, a.lnodes, n);
    forall x | x in b.objs && b.objs[x].kind == Logic ensures x in b.lnodes {
      if x != n {
        assert x in a.lnodes;
      }
    }
  }

  /** `new_port_input` adds an input node and changes no existing object,
      so it keeps the creation order and every logic node listed. */
  lemma NewPortInputKeepsOrder(net: Network, p: nat, bitpos: nat)
    requires p < |net.ports| && BdnBuild.PortShaped(net.ports[p]) && PoolBounded(net) && ObjsBounded(net)
    requires CreatedInOrder(net) && LogicListed(net)
    ensures var r := BdnBuild.NewPortInput(net, p, bitpos);
            r.Some? ==> CreatedInOrder(r.value) && LogicListed(r.value)
  {
    var r := BdnBuild.NewPortInput(net, p, bitpos);
    if r.Some? {
      var n := net.nextRef;
      var port := net.ports[p];
      var net1 := BdnBuild.AllocObj(net, Input);
      var net2 := net1.(ports := net1.ports[p := port.(inputs := port.inputs[bitpos := Some(n)])]);
      BdnBuild.RegNodeAssertHolds(net2);
      var net3 := BdnBuild.RegNode(net2, n);
      assert r.value == net3.(inputs := net3.inputs + [n]);
      assert forall y :: y in net.objs ==> y in r.value.objs && SameLogic(r.value.objs[y], net.objs[y]);
      TopoFrame(net.objs, r.value.objs, SetOf(net.inputs), net.lnodes);
      TopoGrow(r.value.objs, SetOf(net.inputs), SetOf(r.value.inputs), net.lnodes);
    }
  }

  // ---------------------------------------------------------------------
  // rsort

  /** `x` is a logic node all of whose fanouts are marked: what `rsort_sub`
      checks before emitting it. */
  predicate Serves(objs: map<Ref, Node>, x: Ref, marks: set<Ref>) {
    && x in objs && objs[x].kind == Logic
    && forall j :: 0 <= j < |objs[x].fanouts| ==> objs[x].fanouts[j].to in marks
  }

  /** Every emitted node is a logic node whose fanouts all go to `outs` or to
      nodes emitted before it. */
  predicate RTopo(objs: map<Ref, Node>, outs: set<Ref>, list: seq<Ref>) {
    forall k :: 0 <= k < |list| ==> Serves(objs, list[k], outs + SetOf(list[..k]))
  }

  predicate RSortInv(objs: map<Ref, Node>, outs: set<Ref>, marks: set<Ref>, list: seq<Ref>) {
    marks == outs + SetOf(list) && NoDup(list) && RTopo(objs, outs, list)
  }

  lemma RSortInvAppend(objs: map<Ref, Node>, outs: set<Ref>, marks: set<Ref>, list: seq<Ref>, x: Ref)
    requires RSortInv(objs, outs, marks, list) && x !in marks && Serves(objs, x, marks)
    ensures RSortInv(objs, outs, marks + {x}, list + [x])
  {
    var l := list + [x];
    forall k | 0 <= k < |l| ensures Serves(objs, l[k], outs + SetOf(l[..k])) {
      if k < |list| {
        assert l[..k] == list[..k];
      } else {
        assert l[..k] == list;
      }
    }
    AppendNoDup(list, x);
    assert SetOf(l) == SetOf(list) + {x};
  }

  lemma RTopoGrow(objs: map<Ref, Node>, outs: set<Ref>, outs': set<Ref>, list: seq<Ref>)
    requires RTopo(objs, outs, list) && outs <= outs'
    ensures RTopo(objs, outs', list)
  {
    forall k | 0 <= k < |list| ensures Serves(objs, list[k], outs' + SetOf(list[..k])) {
      assert Serves(objs, list[k], outs + SetOf(list[..k]));
    }
  }

  /** The fanout scan of `rsort_sub`: true when every fanout is marked. */
  method AllFanoutsMarked(fo: seq<Edge>, marks: set<Ref>) returns (b: bool)
    ensures b <==> forall j :: 0 <= j < |fo| ==> fo[j].to in marks
  {
    var j := 0;
    while j < |fo|
      invariant 0 <= j <= |fo|
      invariant forall i :: 0 <= i < j ==> fo[i].to in marks
    {
      if fo[j].to !in marks {
        return false;
      }
      j := j + 1;
    }
    return true;
  }

  /** `rsort_sub(node, marks, node_list)`: a non-null, unmarked logic node
      all of whose fanouts are marked is marked and emitted. */
  method RSortSub(objs: map<Ref, Node>, node: Option<Ref>, outs: set<Ref>, marks: set<Ref>, list: seq<Ref>)
    returns (marks': set<Ref>, list': seq<Ref>)
    requires node.Some? ==> node.value in objs
    requires RSortInv(objs, outs, marks, list)
    ensures RSortInv(objs, outs, marks', list')
    ensures |list| <= |list'| && list'[..|list|] == list && marks <= marks'
    ensures node.Some? && Serves(objs, node.value, marks) ==> node.value in marks'
  {
    marks', list' := marks, list;
    if node.None? || objs[node.value].kind != Logic || node.value in marks {
      return;
    }
    var n := node.value;
    var ready := AllFanoutsMarked(objs[n].fanouts, marks);
    if ready {
      RSortInvAppend(objs, outs, marks, list, n);
      marks', list' := marks + {n}, list + [n];
      assert list'[..|list|] == list;
    }
  }

  /** The first loop of `rsort`: each output is marked and its fanin
      offered. */
  method SeedOutputs(objs: map<Ref, Node>, outputs: seq<Ref>) returns (marks: set<Ref>, list: seq<Ref>)
    requires SlotsListed(objs) && forall k :: 0 <= k < |outputs| ==> outputs[k] in objs
    ensures RSortInv(objs, SetOf(outputs), marks, list)
  {
    marks, list := {}, [];
    var outs: set<Ref> := {};
    var i := 0;
    while i < |outputs|
      invariant 0 <= i <= |outputs|
      invariant outs == SetOf(outputs[..i])
      invariant RSortInv(objs, outs, marks, list)
    {
      var node := outputs[i];
      RTopoGrow(objs, outs, outs + {node}, list);
      assert Slot(objs[node], 0) == objs[node].fanin0;
      marks, list := RSortSub(objs, objs[node].fanin0, outs + {node}, marks + {node}, list);
      PrefixGrows(outputs, outputs, i);
      outs := outs + {node};
      i := i + 1;
    }
    assert outputs[..i] == outputs;
  }

  /** The second loop of `rsort`: both fanins of each emitted node are
      offered in turn. */
  method RDrainAll(objs: map<Ref, Node>, outs: set<Ref>, marks0: set<Ref>, list0: seq<Ref>)
    returns (marks: set<Ref>, list: seq<Ref>)
    requires SlotsListed(objs)
    requires RSortInv(objs, outs, marks0, list0)
    ensures RSortInv(objs, outs, marks, list)
  {
    marks, list := marks0, list0;
    var rpos := 0;
    while rpos < |list|
      invariant 0 <= rpos <= |list|
      invariant RSortInv(objs, outs, marks, list)
      decreases |objs| - rpos
    {
      NoDupWithin(list, objs.Keys);
      var node := list[rpos];
      assert Serves(objs, node, outs + SetOf(list[..rpos]));
      assert Slot(objs[node], 0) == objs[node].fanin0 && Slot(objs[node], 1) == objs[node].fanin1;
      marks, list := RSortSub(objs, objs[node].fanin0, outs, marks, list);
      marks, list := RSortSub(objs, objs[node].fanin1, outs, marks, list);
      rpos := rpos + 1;
    }
  }

  /** `rsort(node_list)`: logic nodes in an order where every node comes
      after all of its fanouts; the outputs seed the marks. */
  method RSort(net: Network) returns (list: seq<Ref>)
    requires FanoutOk(net.objs)
    requires forall k :: 0 <= k < |net.outputs| ==> net.outputs[k] in net.objs
    ensures NoDup(list)
    ensures RTopo(net.objs, SetOf(net.outputs), list)
  {
    var marks, l := SeedOutputs(net.objs, net.outputs);
    marks, list := RDrainAll(net.objs, SetOf(net.outputs), marks, l);
  }

  // ---------------------------------------------------------------------
  // level

  function Max(a: nat, b: nat): nat {
    if a < b then b else a
  }

  /** A logic node one level above the deeper of its fanins. */
  predicate LevelOk(objs: map<Ref, Node>, x: Ref) {
    && x in objs && objs[x].fanin0.Some? && objs[x].fanin1.Some?
    && objs[x].fanin0.value in objs && objs[x].fanin1.value in objs
    && objs[x].level == 1 + Max(objs[objs[x].fanin0.value].level, objs[objs[x].fanin1.value].level)
  }

  /** The level of the fanin of output `o`, when it has one. */
  function OutLevel(objs: map<Ref, Node>, o: Ref): nat
    requires o in objs && objs[o].fanin0.Some? && objs[o].fanin0.value in objs
  {
    objs[objs[o].fanin0.value].level
  }

  /** A node emitted later is neither a fanin of an earlier one nor one of
      the seeds. */
  lemma LaterNotFanin(objs: map<Ref, Node>, ins: set<Ref>, order: seq<Ref>, k: nat, p: nat)
    requires Topo(objs, ins, order) && NoDup(order) && k < p < |order| && order[p] !in ins
    ensures order[p] != order[k]
    ensures order[p] != objs[order[k]].fanin0.value && order[p] != objs[order[k]].fanin1.value
  {
    assert Fed(objs, order[k], ins + SetOf(order[..k]));
    assert order[p] !in order[..k];
  }

  /** The level map with every input at level 0. */
  method ResetInputs(objs: map<Ref, Node>, inputs: seq<Ref>) returns (lv: map<Ref, nat>)
    requires forall k :: 0 <= k < |inputs| ==> inputs[k] in objs
    ensures lv.Keys == objs.Keys
    ensures forall k :: 0 <= k < |inputs| ==> lv[inputs[k]] == 0
    ensures forall r :: r in objs && r !in SetOf(inputs) ==> lv[r] == objs[r].level
  {
    lv := map r | r in objs :: objs[r].level;
    var i := 0;
    while i < |inputs|
      invariant 0 <= i <= |inputs|
      invariant lv.Keys == objs.Keys
      invariant forall k :: 0 <= k < i ==> lv[inputs[k]] == 0
      invariant forall r :: r in objs && r !in SetOf(inputs[..i]) ==> lv[r] == objs[r].level
    {
      PrefixGrows(inputs, inputs, i);
      lv := lv[inputs[i] := 0];
      i := i + 1;
    }
    assert inputs[..i] == inputs;
  }

  /** The levels along a topological order: each node one above the deeper
      of its fanins. */
  method Propagate(objs: map<Ref, Node>, ins: set<Ref>, order: seq<Ref>, lv0: map<Ref, nat>)
    returns (lv: map<Ref, nat>)
    requires SlotsListed(objs) && lv0.Keys == objs.Keys
    requires Topo(objs, ins, order) && NoDup(order)
    requires forall k :: 0 <= k < |order| ==> order[k] !in ins
    ensures lv.Keys == objs.Keys
    ensures forall r :: r in ins ==> r in lv0 ==> lv[r] == lv0[r]
    ensures forall k :: 0 <= k < |order| ==>
              Fed(objs, order[k], ins + SetOf(order[..k])) &&
              objs[order[k]].fanin0.value in objs && objs[order[k]].fanin1.value in objs &&
              lv[order[k]] == 1 + Max(lv[objs[order[k]].fanin0.value], lv[objs[order[k]].fanin1.value])
  {
    lv := lv0;
    var p := 0;
    while p < |order|
      invariant 0 <= p <= |order|
      invariant lv.Keys == objs.Keys
      invariant forall r :: r in ins ==> r in lv0 ==> lv[r] == lv0[r]
      invariant forall k :: 0 <= k < p ==>
                  Fed(objs, order[k], ins + SetOf(order[..k])) &&
                  objs[order[k]].fanin0.value in objs && objs[order[k]].fanin1.value in objs &&
                  lv[order[k]] == 1 + Max(lv[objs[order[k]].fanin0.value], lv[objs[order[k]].fanin1.value])
    {
      var x := order[p];
      assert Fed(objs, x, ins + SetOf(order[..p]));
      assert Slot(objs[x], 0) == objs[x].fanin0 && Slot(objs[x], 1) == objs[x].fanin1;
      forall k | 0 <= k < p {
        LaterNotFanin(objs, ins, order, k, p);
      }
      lv := lv[x := 1 + Max(lv[objs[x].fanin0.value], lv[objs[x].fanin1.value])];
      p := p + 1;
    }
  }

  /** The deepest output fanin over the outputs. */
  method MaxOutput(objs: map<Ref, Node>, outputs: seq<Ref>, lv: map<Ref, nat>) returns (m: nat)
    requires forall k :: 0 <= k < |outputs| ==> outputs[k] in objs
    requires SlotsListed(objs) && lv.Keys == objs.Keys
    ensures forall k :: 0 <= k < |outputs| && objs[outputs[k]].fanin0.Some? ==>
              objs[outputs[k]].fanin0.value in lv && lv[objs[outputs[k]].fanin0.value] <= m
    ensures m == 0 || exists k :: (0 <= k < |outputs| && objs[outputs[k]].fanin0.Some? &&
                                   objs[outputs[k]].fanin0.value in lv && lv[objs[outputs[k]].fanin0.value] == m)
  {
    m := 0;
    var i := 0;
    while i < |outputs|
      invariant 0 <= i <= |outputs|
      invariant forall k :: 0 <= k < i && objs[outputs[k]].fanin0.Some? ==>
                  objs[outputs[k]].fanin0.value in lv && lv[objs[outputs[k]].fanin0.value] <= m
      invariant m == 0 || exists k :: (0 <= k < i && objs[outputs[k]].fanin0.Some? &&
                                     objs[outputs[k]].fanin0.value in lv && lv[objs[outputs[k]].fanin0.value] == m)
    {
      var o := outputs[i];
      if objs[o].fanin0.Some? {
        assert Slot(objs[o], 0) == objs[o].fanin0;
        var l1 := lv[objs[o].fanin0.value];
        if m < l1 {
          m := l1;
        }
      }
      i := i + 1;
    }
  }

  /** `level()`: answered from the cache when it is valid (odd); otherwise
      the inputs are put at level 0, the logic nodes are levelled in `sort`
      order, the deepest output fanin is the answer, and the cache becomes
      `(level << 1) | 1`. */
  method Level(net: Network) returns (net': Network, l: nat, ghost order: seq<Ref>)
    requires FanoutOk(net.objs)
    requires forall k :: 0 <= k < |net.inputs| ==> net.inputs[k] in net.objs && net.objs[net.inputs[k]].kind != Logic
    requires forall k :: 0 <= k < |net.outputs| ==> net.outputs[k] in net.objs
    // a valid cache is the answer, and nothing changes
    ensures net.levelCache % 2 == 1 ==> net' == net && l == net.levelCache / 2
    // afterwards the cache is valid and holds the answer
    ensures net'.levelCache % 2 == 1 && net'.levelCache / 2 == l
    // only node levels and the cache change
    ensures net' == net.(objs := net'.objs, levelCache := net'.levelCache)
    ensures net'.objs.Keys == net.objs.Keys
    ensures forall r :: r in net.objs ==> net'.objs[r] == net.objs[r].(level := net'.objs[r].level)
    ensures net.levelCache % 2 == 0 ==>
              && (forall k :: 0 <= k < |net.inputs| ==> net'.objs[net.inputs[k]].level == 0)
              && NoDup(order) && Topo(net.objs, SetOf(net.inputs), order)
              && (forall x :: Fed(net.objs, x, SetOf(net.inputs) + SetOf(order)) ==>
                    x in SetOf(net.inputs) + SetOf(order))
              && (forall k :: 0 <= k < |order| ==> LevelOk(net'.objs, order[k]))
              && (forall k :: 0 <= k < |net.outputs| && net.objs[net.outputs[k]].fanin0.Some? ==>
                    net.objs[net.outputs[k]].fanin0.value in net'.objs &&
                    OutLevel(net'.objs, net.outputs[k]) <= l)
              && (l == 0 || exists k :: (0 <= k < |net.outputs| && net.objs[net.outputs[k]].fanin0.Some? &&
                                           net.objs[net.outputs[k]].fanin0.value in net'.objs &&
                                           OutLevel(net'.objs, net.outputs[k]) == l))
  {
    if net.levelCache % 2 == 1 {
      return net, net.levelCache / 2, [];
    }
    var objs := net.objs;
    var lv := ResetInputs(objs, net.inputs);
    var ord := Sort(net);
    order := ord;
    forall k | 0 <= k < |ord| ensures ord[k] !in SetOf(net.inputs) {
      assert Fed(objs, ord[k], SetOf(net.inputs) + SetOf(ord[..k]));
    }
    lv := Propagate(objs, SetOf(net.inputs), ord, lv);
    l := MaxOutput(objs, net.outputs, lv);
    var objs' := map r | r in objs :: objs[r].(level := lv[r]);
    net' := net.(objs := objs', levelCache := 2 * l + 1);
    forall k | 0 <= k < |ord| ensures LevelOk(objs', ord[k]) {
      assert Fed(objs, ord[k], SetOf(net.inputs) + SetOf(ord[..k]));
      assert Slot(objs[ord[k]], 0) == objs[ord[k]].fanin0 && Slot(objs[ord[k]], 1) == objs[ord[k]].fanin1;
    }
  }

  /** A consistent network meets what `sort`, `rsort` and `level` need. */
  lemma ValidOrderReady(net: Network)
    requires Valid(net) && IoOk(net)
    ensures FanoutOk(net.objs)
    ensures forall k :: 0 <= k < |net.inputs| ==> net.inputs[k] in net.objs && net.objs[net.inputs[k]].kind != Logic
    ensures forall k :: 0 <= k < |net.outputs| ==> net.outputs[k] in net.objs
  {
  }
}
