/** The state of a `BdNetwork` (libym_bdn): node objects, the node id
    pool and node array, the input/output/logic-node lists, ports, D-FF and
    latch registries, the structural hash table and the level cache.

    Node objects are told apart by `Ref` (their address in the source); the
    integer id handed out by `reg_node` is an attribute of the object, so a
    stale object can still be reached after its id has been given to another. */
module BdnTypes {
  import opened Base
  import opened TruthTable
  import opened Canon

  type NodeId = nat

  /** `BdnNode::tType`: the terminal kinds of ports, D-FFs and latches, and
      two-input logic. */
  datatype Kind =
    | Input | Output | Logic
    | DffOutput | DffInput | DffClock | DffSet | DffReset
    | LatchOutput | LatchInput | LatchEnable

  /** Kinds kept in the input list: they drive the logic. */
  predicate IsInputKind(k: Kind) {
    k.Input? || k.DffOutput? || k.LatchOutput?
  }

  /** Kinds kept in the output list: each has one fanin, in slot 0. */
  predicate IsOutputKind(k: Kind) {
    k.Output? || k.DffInput? || k.DffClock? || k.DffSet? || k.DffReset?
    || k.LatchInput? || k.LatchEnable?
  }

  /** A fanin edge, named by the node that owns it and the slot position. */
  datatype Edge = Edge(to: Ref, pos: nat)

  /** A node object.  `id` is `None` until `reg_node` gives the object an id. */
  datatype Node = Node(
    kind: Kind,
    id: Option<NodeId>,
    fcode: FCode,
    fanin0: Option<Ref>,
    fanin1: Option<Ref>,
    fanouts: seq<Edge>,
    inv: bool,
    level: nat)

  /** A freshly allocated node object: no id, no fanins, no fanouts. */
  function NewNode(kind: Kind): Node {
    Node(kind, None, 0, None, None, [], false, 0)
  }

  /** The node in fanin slot `pos`. */
  function Slot(n: Node, pos: nat): Option<Ref> {
    if pos == 0 then n.fanin0 else if pos == 1 then n.fanin1 else None
  }

  function SetSlot(n: Node, pos: nat, from: Option<Ref>): (r: Node)
    requires pos < 2
    ensures Slot(r, pos) == from && Slot(r, 1 - pos) == Slot(n, 1 - pos)
    ensures r.fanouts == n.fanouts && r.kind == n.kind && r.id == n.id
    ensures r.fcode == n.fcode && r.inv == n.inv && r.level == n.level
  {
    if pos == 0 then n.(fanin0 := from) else n.(fanin1 := from)
  }

  /** A port: name, bit width and per-bit input and output terminals. */
  datatype Port = Port(id: nat, name: string, width: nat,
                       inputs: seq<Option<Ref>>, outputs: seq<Option<Ref>>)

  /** A D-FF object and its five terminal node objects. */
  datatype Dff = Dff(id: nat, name: string,
                     output: Ref, input: Ref, clock: Ref, setNode: Ref, resetNode: Ref)

  /** A latch object and its three terminal node objects. */
  datatype Latch = Latch(id: nat, name: string, output: Ref, input: Ref, enable: Ref)

  datatype Network = Network(
    name: string,
    objs: map<Ref, Node>,          // every node object ever allocated
    nextRef: Ref,                  // the next fresh object
    nodeArray: seq<Ref>,           // mNodeArray, indexed by id
    nodePool: set<NodeId>,         // ids in use (mNodeItvlMgr)
    inputs: seq<Ref>,
    outputs: seq<Ref>,
    lnodes: seq<Ref>,
    ports: seq<Port>,
    dffArray: seq<Dff>,
    dffPool: set<nat>,
    dffList: seq<nat>,
    latchArray: seq<Latch>,
    latchPool: set<nat>,
    latchList: seq<nat>,
    buckets: seq<seq<Ref>>,        // the hash table; each chain head first
    nextLimit: nat,
    levelCache: nat)               // (level << 1) | 1 when valid, else even

  /** The id of a node object, 0 when it has none. */
  function IdOf(net: Network, r: Ref): nat {
    if r in net.objs && net.objs[r].id.Some? then net.objs[r].id.value else 0
  }

  /** Node ids as a function, for the canonicaliser's operand order. */
  function Ids(net: Network): Ref -> nat {
    r => IdOf(net, r)
  }

  /** `r` holds a registered id and the node array maps that id back to it. */
  predicate Registered(net: Network, r: Ref) {
    r in net.objs && net.objs[r].id.Some?
    && net.objs[r].id.value in net.nodePool
    && net.objs[r].id.value < |net.nodeArray|
    && net.nodeArray[net.objs[r].id.value] == r
  }

  /** `max_node_id()`. */
  function MaxNodeId(net: Network): nat {
    |net.nodeArray|
  }

  /** `lnode_num()`. */
  function LnodeNum(net: Network): nat {
    |net.lnodes|
  }

  /** Fresh object references lie above every allocated one. */
  predicate ObjsBounded(net: Network) {
    forall r :: r in net.objs ==> r < net.nextRef
  }

  /** The id pool and node array agree: every id in use is below the array
      size and names an object that carries that id. */
  predicate PoolOk(net: Network) {
    && (forall i: nat :: i in net.nodePool ==> i < |net.nodeArray|)
    && (forall i: nat :: i in net.nodePool ==>
          net.nodeArray[i] in net.objs && net.objs[net.nodeArray[i]].id == Some(i))
  }

  /** Fanin slots and fanout lists describe the same edges. */
  predicate FanoutOk(objs: map<Ref, Node>) {
    EdgesPointBack(objs) && SlotsListed(objs) && FanoutsDistinct(objs)
  }

  /** Every listed fanout edge names a slot that holds the lister. */
  predicate EdgesPointBack(objs: map<Ref, Node>) {
    forall r, k :: r in objs && 0 <= k < |objs[r].fanouts| ==>
      var e := objs[r].fanouts[k];
      e.to in objs && e.pos < 2 && Slot(objs[e.to], e.pos) == Some(r)
  }

  /** Every filled slot is listed by the node it holds. */
  predicate SlotsListed(objs: map<Ref, Node>) {
    forall t, p :: t in objs && 0 <= p < 2 && Slot(objs[t], p).Some? ==>
      Slot(objs[t], p).value in objs && Edge(t, p) in objs[Slot(objs[t], p).value].fanouts
  }

  predicate FanoutsDistinct(objs: map<Ref, Node>) {
    forall r :: r in objs ==> NoDup(objs[r].fanouts)
  }

  /** The key of a logic node in the hash table. */
  datatype Key = Key(fcode: FCode, in0: Ref, in1: Ref)

  function KeyOf(n: Node): Key {
    Key(n.fcode, if n.fanin0.Some? then n.fanin0.value else 0,
                 if n.fanin1.Some? then n.fanin1.value else 0)
  }

  /** A logic node in canonical form: both fanins present, ordered by id,
      bit 0 of the code clear. */
  predicate Canonical(net: Network, r: Ref) {
    r in net.objs && net.objs[r].kind == Logic
    && net.objs[r].fanin0.Some? && net.objs[r].fanin1.Some?
    && !Bit(net.objs[r].fcode, 0)
    && IdOf(net, net.objs[r].fanin0.value) < IdOf(net, net.objs[r].fanin1.value)
  }

  /** The logic-node list: distinct, registered, canonical nodes with
      pairwise distinct keys (structural sharing). */
  predicate LnodesOk(net: Network) {
    && NoDup(net.lnodes)
    && (forall k :: 0 <= k < |net.lnodes| ==>
          Registered(net, net.lnodes[k]) && Canonical(net, net.lnodes[k]))
    && (forall j, k :: 0 <= j < k < |net.lnodes| ==>
          KeyOf(net.objs[net.lnodes[j]]) != KeyOf(net.objs[net.lnodes[k]]))
  }
}
