/** The packed pattern-graph tables of the cell mapper (`PatMgr`): one
    32-bit word per node holding its type and input number, and two 32-bit
    words per node holding its fanin edges. */
module PatMgr {

  /** `tType`: the node types the low two bits encode.  Code 1 is not a
      named type. */
  datatype NodeType = InputType | AndType | XorType | Unnamed

  function TypeOfCode(c: bv32): (t: NodeType)
    requires c < 4
    ensures t == Unnamed <==> c == 1
  {
    if c == 0 then InputType else if c == 2 then AndType else if c == 3 then XorType else Unnamed
  }

  /** The tables; `edges` holds two words per node. */
  datatype Tables = Tables(nodeWords: seq<bv32>, edgeWords: seq<bv32>)

  predicate Valid(pm: Tables) {
    |pm.edgeWords| == 2 * |pm.nodeWords|
  }

  function NodeNum(pm: Tables): nat {
    |pm.nodeWords|
  }

  /** `node_type(id)`: the low two bits of the node word. */
  function NodeTypeOf(pm: Tables, id: nat): NodeType
    requires id < NodeNum(pm)
  {
    TypeOfCode(pm.nodeWords[id] & 3)
  }

  /** `input_id(id)`: the node word without its type bits. */
  function InputId(pm: Tables, id: nat): bv32
    requires id < NodeNum(pm)
  {
    pm.nodeWords[id] >> 2
  }

  /** `input_node(i)`: inputs are the first nodes. */
  function InputNode(i: nat): nat {
    i
  }

  /** How a node word is built from a type code and an input number. */
  function NodeWord(code: bv32, input: bv32): bv32 {
    (input << 2) | code
  }

  /** Type and input number come back out of a node word. */
  lemma NodeWordRoundTrip(pm: Tables, id: nat, code: bv32, input: bv32)
    requires id < NodeNum(pm) && pm.nodeWords[id] == NodeWord(code, input)
    requires code < 4 && input < 0x4000_0000
    ensures NodeTypeOf(pm, id) == TypeOfCode(code)
    ensures InputId(pm, id) == input
  {
  }

  /** `edge_num()`: two edges per node. */
  function EdgeNum(pm: Tables): (r: nat)
    requires Valid(pm)
    ensures r == |pm.edgeWords|
  {
    NodeNum(pm) * 2
  }

  /** `edge_to(id)`: the node the edge feeds. */
  function EdgeTo(id: nat): nat {
    id / 2
  }

  /** `edge_pos(id)`: the fanin position, `id & 1`. */
  function EdgePos(id: nat): nat {
    id % 2
  }

  /** `edge_from(id)`: the source node, above the inversion bit. */
  function EdgeFrom(pm: Tables, id: nat): bv32
    requires id < |pm.edgeWords|
  {
    pm.edgeWords[id] >> 1
  }

  /** `edge_inv(id)`: the low bit of the edge word. */
  function EdgeInv(pm: Tables, id: nat): bool
    requires id < |pm.edgeWords|
  {
    pm.edgeWords[id] & 1 == 1
  }

  /** Every edge feeds an existing node at position 0 or 1, and each
      node's two fanins are edges `2k` and `2k + 1`: edges and (node,
      position) pairs correspond one to one. */
  lemma EdgeNumbering(pm: Tables, e: nat, k: nat, p: nat)
    requires Valid(pm)
    ensures e < EdgeNum(pm) ==> EdgeTo(e) < NodeNum(pm) && EdgePos(e) < 2
    ensures e == 2 * EdgeTo(e) + EdgePos(e)
    ensures p < 2 ==> (EdgeTo(e) == k && EdgePos(e) == p <==> e == 2 * k + p)
  {
  }

  /** How an edge word is built from a source node and an inversion
      flag. */
  function EdgeWord(from: bv32, inv: bool): bv32 {
    (from << 1) | (if inv then 1 else 0)
  }

  /** Source node and inversion come back out of an edge word. */
  lemma EdgeWordRoundTrip(pm: Tables, id: nat, from: bv32, inv: bool)
    requires id < |pm.edgeWords| && pm.edgeWords[id] == EdgeWord(from, inv)
    requires from < 0x8000_0000
    ensures EdgeFrom(pm, id) == from && EdgeInv(pm, id) == inv
  {
  }
}
