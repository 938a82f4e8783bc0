/** The record a cell mapper keeps per subject-graph node and polarity
    (`MapRecord`): the chosen match and cell, the mapped node once it
    exists, and the back trace that builds the mapped network from the
    outputs towards the inputs, creating each mapped node once. */
module MapRecord {
  import opened Base

  /** A leaf of a match: a subject node in a given polarity. */
  datatype Leaf = Leaf(node: nat, inv: bool)

  /** What is recorded for one node and polarity.  The source keeps
      pointers; here the cell and the mapped node are indices, absent when
      the pointer is null. */
  datatype NodeInfo = NodeInfo(leaves: seq<Leaf>, cell: Option<nat>, mapNode: Option<nat>)

  const Empty := NodeInfo([], None, None)

  /** A node of the mapped network: its fanins and its cell. */
  datatype MapNode = MapNode(fanins: seq<nat>, cell: nat)

  /** `get_node_info(node, inv)`: the slot of a node in one polarity. */
  function Slot(id: nat, inv: bool): nat {
    id * 2 + (if inv then 1 else 0)
  }

  /** Distinct nodes or polarities never share a slot, and every slot
      belongs to one node and polarity. */
  lemma SlotInjective(a: nat, i: bool, b: nat, j: bool)
    ensures Slot(a, i) == Slot(b, j) <==> a == b && i == j
    ensures Slot(a, i) / 2 == a && (Slot(a, i) % 2 == 1 <==> i)
  {
  }

  /** `init`: two empty slots per node id. */
  function Init(maxNodeId: nat): (r: seq<NodeInfo>)
    ensures |r| == 2 * maxNodeId
    ensures forall k :: 0 <= k < |r| ==> r[k] == Empty
  {
    seq(2 * maxNodeId, _ => Empty)
  }

  /** Both polarities of every node below the maximum id fit in the
      record `init` sizes. */
  lemma InitFits(maxNodeId: nat, id: nat, inv: bool)
    ensures Slot(id, inv) < |Init(maxNodeId)| <==> id < maxNodeId
  {
  }

  /** `copy`: a record of the same size that carries over only the
      matches. */
  function Copy(src: seq<NodeInfo>): (r: seq<NodeInfo>)
    ensures |r| == |src|
    ensures forall k :: 0 <= k < |r| ==> r[k].leaves == src[k].leaves && r[k].cell.None? && r[k].mapNode.None?
  {
    seq(|src|, k requires 0 <= k < |src| => Empty.(leaves := src[k].leaves))
  }

  /** Copying a copy changes nothing. */
  lemma CopyIdempotent(src: seq<NodeInfo>)
    ensures Copy(Copy(src)) == Copy(src)
  {
  }

  /** `set_logic_match`: the match and cell of one node and polarity. */
  function SetLogicMatch(rec: seq<NodeInfo>, id: nat, inv: bool, leaves: seq<Leaf>, cell: nat): (r: seq<NodeInfo>)
    requires Slot(id, inv) < |rec|
    ensures |r| == |rec|
  {
    rec[Slot(id, inv) := rec[Slot(id, inv)].(leaves := leaves, cell := Some(cell))]
  }

  /** `set_inv_match`: an inverter, whose one leaf is the same node in the
      other polarity. */
  function SetInvMatch(rec: seq<NodeInfo>, id: nat, inv: bool, cell: nat): (r: seq<NodeInfo>)
    requires Slot(id, inv) < |rec|
    ensures |r| == |rec|
  {
    SetLogicMatch(rec, id, inv, [Leaf(id, !inv)], cell)
  }

  /** `get_match` reads back what was set for that node and polarity, and
      setting one leaves every other node and polarity alone. */
  lemma SetMatchReadBack(rec: seq<NodeInfo>, id: nat, inv: bool, leaves: seq<Leaf>, cell: nat, id2: nat, inv2: bool)
    requires Slot(id, inv) < |rec| && Slot(id2, inv2) < |rec|
    ensures var r := SetLogicMatch(rec, id, inv, leaves, cell);
            && (id2 == id && inv2 == inv ==> r[Slot(id2, inv2)].leaves == leaves && r[Slot(id2, inv2)].cell == Some(cell))
            && (id2 != id || inv2 != inv ==> r[Slot(id2, inv2)] == rec[Slot(id2, inv2)])
  {
    SlotInjective(id, inv, id2, inv2);
  }

  /** The inverter match has exactly one leaf: the node itself in the
      opposite polarity. */
  lemma SetInvMatchLeaf(rec: seq<NodeInfo>, id: nat, inv: bool, cell: nat)
    requires Slot(id, inv) < |rec|
    ensures var m := SetInvMatch(rec, id, inv, cell)[Slot(id, inv)].leaves;
            |m| == 1 && m[0].node == id && m[0].inv == !inv && Slot(m[0].node, m[0].inv) != Slot(id, inv)
  {
    SlotInjective(id, inv, id, !inv);
  }

  // ---------------------------------------------------------------------
  // the pin encoding of a DFF cell

  /** `encode(pos, sense)`: the pin position in the low 3 bits and the
      sense above them, in a 32-bit word. */
  function Encode(pos: bv32, sense: bv32): bv32 {
    pos | (sense << 3)
  }

  /** A position below 8 and a sense below 2^29 come back out. */
  lemma EncodeRoundTrip(pos: bv32, sense: bv32)
    requires pos < 8 && sense < 0x2000_0000
    ensures Encode(pos, sense) & 7 == pos
    ensures Encode(pos, sense) >> 3 == sense
  {
  }

  // ---------------------------------------------------------------------
  // back_trace

  /** The subject matches are acyclic: each slot still to be mapped has a
      cell, its leaves lie in the record and rank below it. */
  predicate Mappable(rec: seq<NodeInfo>, rank: map<nat, nat>) {
    forall s :: 0 <= s < |rec| && rec[s].mapNode.None? ==>
      && rec[s].cell.Some? && s in rank
      && forall k :: 0 <= k < |rec[s].leaves| ==>
           var t := Slot(rec[s].leaves[k].node, rec[s].leaves[k].inv);
           t < |rec| && t in rank && rank[t] < rank[s]
  }

  /** Every mapped node the record points at exists. */
  predicate PointsInto(rec: seq<NodeInfo>, g: seq<MapNode>) {
    forall s :: 0 <= s < |rec| && rec[s].mapNode.Some? ==> rec[s].mapNode.value < |g|
  }

  /** How a back trace may change the record and the mapped network:
      matches and cells stay, mapped nodes already set stay, the network
      only grows, and every slot newly mapped ranks below `bound`. */
  predicate Grows(rec: seq<NodeInfo>, g: seq<MapNode>, rec': seq<NodeInfo>, g': seq<MapNode>, rank: map<nat, nat>, bound: nat) {
    && |rec'| == |rec| && |g| <= |g'| && g'[..|g|] == g
    && (forall s :: 0 <= s < |rec| ==> rec'[s].leaves == rec[s].leaves && rec'[s].cell == rec[s].cell)
    && (forall s :: 0 <= s < |rec| && rec[s].mapNode.Some? ==> rec'[s].mapNode == rec[s].mapNode)
    && (forall s :: 0 <= s < |rec| && rec'[s].mapNode != rec[s].mapNode ==> s in rank && rank[s] < bound)
  }

  datatype Traced = Traced(rec: seq<NodeInfo>, g: seq<MapNode>, node: nat)

  /** `back_trace(node, inv)` on slot `s`: the recorded mapped node if
      there is one; otherwise the leaves first, in order, then one new
      mapped node with the leaves' mapped nodes as fanins, recorded in the
      slot. */
  function BackTrace(rec: seq<NodeInfo>, g: seq<MapNode>, s: nat, rank: map<nat, nat>): (r: Traced)
    requires s < |rec| && Mappable(rec, rank) && PointsInto(rec, g)
    requires rec[s].mapNode.None? ==> s in rank
    ensures |r.rec| == |rec| && Mappable(r.rec, rank) && PointsInto(r.rec, r.g)
    ensures r.rec[s].mapNode == Some(r.node)
    ensures rec[s].mapNode.Some? ==> r == Traced(rec, g, rec[s].mapNode.value)
    ensures rec[s].mapNode.None? ==>
              && Grows(rec, g, r.rec, r.g, rank, rank[s] + 1)
              && r.node == |r.g| - 1
              && r.g[r.node].cell == rec[s].cell.value
              && |r.g[r.node].fanins| == |rec[s].leaves|
              && forall k :: 0 <= k < |rec[s].leaves| ==>
                   r.rec[Slot(rec[s].leaves[k].node, rec[s].leaves[k].inv)].mapNode == Some(r.g[r.node].fanins[k])
    decreases if s in rank then rank[s] else 0, 1, 0
  {
    if rec[s].mapNode.Some? then Traced(rec, g, rec[s].mapNode.value)
    else
      var r1 := TraceLeaves(rec, g, rec[s].leaves, 0, rank, rank[s]);
      var r2 := NewMapped(r1.rec, r1.g, s, rank);
      GrowsMark(rec, g, r1.rec, r1.g, r2.rec, r2.g, s, rank);
      r2
  }

  /** A leaf trace followed by recording slot `s` is a growth bounded by
      `s`'s rank. */
  lemma GrowsMark(rec: seq<NodeInfo>, g: seq<MapNode>, rec1: seq<NodeInfo>, g1: seq<MapNode>,
                  rec2: seq<NodeInfo>, g2: seq<MapNode>, s: nat, rank: map<nat, nat>)
    requires s < |rec| && s in rank && rec[s].mapNode.None?
    requires Grows(rec, g, rec1, g1, rank, rank[s])
    requires |g1| <= |g2| && g2[..|g1|] == g1
    requires rec2 == rec1[s := rec1[s].(mapNode := Some(|g1|))]
    ensures Grows(rec, g, rec2, g2, rank, rank[s] + 1)
  {
    assert g2[..|g|] == g1[..|g|];
  }

  /** Growth composes. */
  lemma GrowsTrans(rec: seq<NodeInfo>, g: seq<MapNode>, rec1: seq<NodeInfo>, g1: seq<MapNode>,
                   rec2: seq<NodeInfo>, g2: seq<MapNode>, rank: map<nat, nat>, bound: nat)
    requires Grows(rec, g, rec1, g1, rank, bound) && Grows(rec1, g1, rec2, g2, rank, bound)
    ensures Grows(rec, g, rec2, g2, rank, bound)
  {
    assert g2[..|g|] == g1[..|g|];
  }

  /** The end of `back_trace`: one new mapped node whose fanins are the
      leaves' mapped nodes in leaf order, recorded in slot `s`. */
  function NewMapped(rec: seq<NodeInfo>, g: seq<MapNode>, s: nat, rank: map<nat, nat>): (r: Traced)
    requires s < |rec| && Mappable(rec, rank) && PointsInto(rec, g)
    requires rec[s].mapNode.None?
    requires forall k :: 0 <= k < |rec[s].leaves| ==> rec[Slot(rec[s].leaves[k].node, rec[s].leaves[k].inv)].mapNode.Some?
    ensures Mappable(r.rec, rank) && PointsInto(r.rec, r.g)
    ensures |r.rec| == |rec| && r.node == |g| && |r.g| == |g| + 1 && r.g[..|g|] == g
    ensures r.rec == rec[s := rec[s].(mapNode := Some(|g|))]
    ensures r.g[r.node].cell == rec[s].cell.value && |r.g[r.node].fanins| == |rec[s].leaves|
    ensures forall k :: 0 <= k < |rec[s].leaves| ==>
              rec[Slot(rec[s].leaves[k].node, rec[s].leaves[k].inv)].mapNode == Some(r.g[r.node].fanins[k])
  {
    var leaves := rec[s].leaves;
    var fanins := seq(|leaves|, k requires 0 <= k < |leaves| => rec[Slot(leaves[k].node, leaves[k].inv)].mapNode.value);
    MarkMappable(rec, s, |g|, rank);
    Traced(rec[s := rec[s].(mapNode := Some(|g|))], g + [MapNode(fanins, rec[s].cell.value)], |g|)
  }

  /** The first loop of `back_trace`: trace leaves `i ..` in order. */
  function TraceLeaves(rec: seq<NodeInfo>, g: seq<MapNode>, leaves: seq<Leaf>, i: nat, rank: map<nat, nat>, bound: nat): (r: Traced)
    requires i <= |leaves| && Mappable(rec, rank) && PointsInto(rec, g)
    requires forall k :: i <= k < |leaves| ==>
               var t := Slot(leaves[k].node, leaves[k].inv); t < |rec| && t in rank && rank[t] < bound
    ensures Mappable(r.rec, rank) && PointsInto(r.rec, r.g)
    ensures Grows(rec, g, r.rec, r.g, rank, bound)
    ensures forall k :: i <= k < |leaves| ==> r.rec[Slot(leaves[k].node, leaves[k].inv)].mapNode.Some?
    decreases bound, 0, |leaves| - i
  {
    if i == |leaves| then Traced(rec, g, 0)
    else
      var t := Slot(leaves[i].node, leaves[i].inv);
      var r1 := BackTrace(rec, g, t, rank);
      var r2 := TraceLeaves(r1.rec, r1.g, leaves, i + 1, rank, bound);
      GrowsTrans(rec, g, r1.rec, r1.g, r2.rec, r2.g, rank, bound);
      Traced(r2.rec, r2.g, 0)
  }

  /** Recording a mapped node keeps the record mappable. */
  lemma MarkMappable(rec: seq<NodeInfo>, s: nat, m: nat, rank: map<nat, nat>)
    requires s < |rec| && Mappable(rec, rank)
    ensures Mappable(rec[s := rec[s].(mapNode := Some(m))], rank)
  {
  }

  /** Tracing a slot again returns the same mapped node and changes
      nothing: each mapped node is created once. */
  lemma BackTraceMemo(rec: seq<NodeInfo>, g: seq<MapNode>, s: nat, rank: map<nat, nat>)
    requires s < |rec| && Mappable(rec, rank) && PointsInto(rec, g)
    requires rec[s].mapNode.None? ==> s in rank
    ensures var r := BackTrace(rec, g, s, rank);
            BackTrace(r.rec, r.g, s, rank) == r
  {
  }

  // ---------------------------------------------------------------------
  // gen_dff

  /** The subject DFF's terminal nodes. */
  datatype SubjectDff = SubjectDff(output: nat, input: nat, clock: nat, clear: nat, preset: nat)

  /** The mapped DFF's terminal nodes. */
  datatype DffPins = DffPins(output1: nat, output2: nat, input: nat, clock: nat, clear: nat, preset: nat)

  /** The senses of the DFF cell's clock, clear and preset pins; 0 means
      the pin is absent, 2 means active low. */
  datatype DffSenses = DffSenses(clock: nat, clear: nat, preset: nat)

  /** A request to back-trace a subject node in a polarity. */
  datatype MapReq = MapReq(node: nat, inv: bool)

  function SetMap(rec: seq<NodeInfo>, s: nat, m: nat): (r: seq<NodeInfo>)
    requires s < |rec|
    ensures |r| == |rec|
  {
    rec[s := rec[s].(mapNode := Some(m))]
  }

  predicate DffFits(rec: seq<NodeInfo>, d: SubjectDff) {
    && Slot(d.output, true) < |rec| && Slot(d.input, false) < |rec| && Slot(d.clock, false) < |rec|
    && Slot(d.clear, false) < |rec| && Slot(d.preset, false) < |rec|
  }

  /** `gen_dff` once the mapped DFF exists: the subject output in polarity
      `inv` is the first mapped output and in the other polarity the
      second; input and clock are bound and requested; with `inv` the clear
      pin is fed from the subject preset and the preset pin from the
      subject clear; pins of sense 0 are skipped. */
  function GenDff(rec: seq<NodeInfo>, d: SubjectDff, pins: DffPins, senses: DffSenses, inv: bool): (r: (seq<NodeInfo>, seq<MapReq>))
    requires DffFits(rec, d)
    ensures |r.0| == |rec|
    ensures |r.1| == 2 + (if senses.clear != 0 then 1 else 0) + (if senses.preset != 0 then 1 else 0)
  {
    var rec1 := SetMap(rec, Slot(d.output, inv), pins.output1);
    var rec2 := SetMap(rec1, Slot(d.output, !inv), pins.output2);
    var rec3 := SetMap(rec2, Slot(d.input, false), pins.input);
    var rec4 := SetMap(rec3, Slot(d.clock, false), pins.clock);
    var reqs := [MapReq(d.input, inv), MapReq(d.clock, senses.clock == 2)];
    var clr := if inv then d.preset else d.clear;
    var rec5 := if senses.clear != 0 then SetMap(rec4, Slot(clr, false), pins.clear) else rec4;
    var reqs5 := if senses.clear != 0 then reqs + [MapReq(clr, senses.clear == 2)] else reqs;
    var pre := if inv then d.clear else d.preset;
    var rec6 := if senses.preset != 0 then SetMap(rec5, Slot(pre, false), pins.preset) else rec5;
    var reqs6 := if senses.preset != 0 then reqs5 + [MapReq(pre, senses.preset == 2)] else reqs5;
    (rec6, reqs6)
  }

  /** The polarity wiring of `gen_dff`, for a DFF whose terminals are
      distinct nodes: both polarities of the output are bound to the two
      mapped outputs as `inv` says, and the clear and preset requests swap
      their subject nodes exactly when `inv` is set. */
  lemma GenDffWiring(rec: seq<NodeInfo>, d: SubjectDff, pins: DffPins, senses: DffSenses, inv: bool)
    requires DffFits(rec, d)
    requires d.output !in {d.input, d.clock, d.clear, d.preset}
    requires d.input !in {d.clock, d.clear, d.preset} && d.clock !in {d.clear, d.preset} && d.clear != d.preset
    ensures var (r, reqs) := GenDff(rec, d, pins, senses, inv);
            && r[Slot(d.output, inv)].mapNode == Some(pins.output1)
            && r[Slot(d.output, !inv)].mapNode == Some(pins.output2)
            && r[Slot(d.input, false)].mapNode == Some(pins.input)
            && r[Slot(d.clock, false)].mapNode == Some(pins.clock)
            && reqs[0] == MapReq(d.input, inv) && reqs[1] == MapReq(d.clock, senses.clock == 2)
            && (senses.clear != 0 ==>
                  && r[Slot(if inv then d.preset else d.clear, false)].mapNode == Some(pins.clear)
                  && reqs[2] == MapReq(if inv then d.preset else d.clear, senses.clear == 2))
            && (senses.preset != 0 ==>
                  && r[Slot(if inv then d.clear else d.preset, false)].mapNode == Some(pins.preset)
                  && reqs[|reqs| - 1] == MapReq(if inv then d.clear else d.preset, senses.preset == 2))
            && (senses.clear == 0 && senses.preset == 0 ==> |reqs| == 2)
  {
    var nodes := [d.output, d.input, d.clock, d.clear, d.preset];
    forall a: nat, b: nat, i: bool, j: bool | a in nodes && b in nodes && (a != b || i != j)
      ensures Slot(a, i) != Slot(b, j)
    {
      SlotInjective(a, i, b, j);
    }
  }

  /** The pin array `gen_dff` registers for a new DFF cell: the data pin,
      then clock, clear and preset each encoded with their sense, then the
      two outputs. */
  function DffPosArray(data: bv32, clockPos: bv32, clockSense: bv32, clearPos: bv32, clearSense: bv32,
                       presetPos: bv32, presetSense: bv32, q: bv32, iq: bv32): seq<bv32>
  {
    [data, Encode(clockPos, clockSense), Encode(clearPos, clearSense), Encode(presetPos, presetSense), q, iq]
  }

  /** Each encoded entry of the pin array gives back its position and
      sense. */
  lemma DffPosArrayDecodes(data: bv32, clockPos: bv32, clockSense: bv32, clearPos: bv32, clearSense: bv32,
                           presetPos: bv32, presetSense: bv32, q: bv32, iq: bv32)
    requires clockPos < 8 && clearPos < 8 && presetPos < 8
    requires clockSense < 4 && clearSense < 4 && presetSense < 4
    ensures var a := DffPosArray(data, clockPos, clockSense, clearPos, clearSense, presetPos, presetSense, q, iq);
            && |a| == 6 && a[0] == data && a[4] == q && a[5] == iq
            && a[1] & 7 == clockPos && a[1] >> 3 == clockSense
            && a[2] & 7 == clearPos && a[2] >> 3 == clearSense
            && a[3] & 7 == presetPos && a[3] >> 3 == presetSense
  {
    EncodeRoundTrip(clockPos, clockSense);
    EncodeRoundTrip(clearPos, clearSense);
    EncodeRoundTrip(presetPos, presetSense);
  }
}
