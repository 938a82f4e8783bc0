# A verified model of the structurally hashed Boolean network and its satellites

This project models, in Dafny, the core of the `gds`/`libym` C++ code base.

The main part is `BdNetwork`, a network of two-input gates. A gate's function is a 4-bit truth table (`fcode`). Each fanin handle may carry an inversion bit. Gates are shared through a chained hash table.

- **Canonicalisation.** `set_logic` turns every gate request into a canonical form. It folds the input inversions into the code and handles constant and same-operand requests without building a node. It then clears bit 0 of the code by splitting off an output inversion and orders the fanins by id. Finally it reuses an equal node from the hash table, or adds one.
- **Wiring and bookkeeping.** `connect` keeps fanin slots and fanout lists in agreement. `reg_node` hands out the smallest free id. `alloc_table` grows and rehashes the table. `new_port_*`, `new_dff` and `new_latch` build terminals.
- **Orders and depth.** `sort` and `rsort` produce forward and reverse topological orders. `level` caches the network depth.

Around this core the project models these self-contained pieces of the same code base:

- the CNF encoders and statistics arithmetic of the SAT-based test generator (`SatEngine`);
- fault bookkeeping:
  - `FaultMgr`: fault registration, equivalence classes, the status lists and the reachability split;
  - `DomChecker`: sorted-list intersection, the dominator-chain meet and candidate filtering;
  - `Fop2MinPat`: per-bit detection counting;
  - `SatEngineMulti2`: option parsing and the 1-based fault-index slots;
- bit-packed codecs:
  - `CmnLatchCell`: six 5-bit fields;
  - `PatMgr`: node and edge words;
  - `MapRecord`: the slot index, the `pos|sense` code and the memoised `back_trace`;
- the conversion of word-level networks to bit-level ones (`MvnBdnConv`): constant bits, the readiness queue, port bit layout, `make_io` and the priority encoding of asynchronous set/reset;
- small parsers, formatters and lists:
  - the `mincov` test parser;
  - `FileInfoMgr` ids, include chains and location text;
  - the `BdnDumper` text;
  - the mislib parse-tree list and `to_expr`;
  - the support collection of a ZDD (`SupOp`).

## How the model is built

Everything is a pure function over immutable datatypes, or a method with loop invariants where the source loops.

**Node objects.** Node objects live in a map from references to records. The network's lists are sequences of references, and node ids are kept separately from references. This lets the model express both "a node no longer registered" and "a stale node still in a hash chain".

**Truth tables and hashing.** Truth tables are `bv4` values. `Apply` reads the row of a pair of input values. The hash function of the source is kept concrete, in 32-bit arithmetic. The load limit is the integer `size * 9 / 5` instead of the source's floating-point factor 1.8.

**Gate values.** A valuation is the set of nodes taken to be true. It is consistent with a network when it gives every listed logic node the value of its gate over its fanins, as a simulation would. The tree builders `new_and`, `new_or` and `new_xor` on lists are stated on such valuations.

**The id pool.** The source takes ids from an interval pool (`ItvlMgr`). The model abstracts it as the set of ids in use; `reg_node` takes the smallest id not in the set.

**Marks and assertions.** Marks used by traversals are sets of references. An assertion failure of the source becomes `None` or a precondition:

- a precondition where the source documents the call as a caller obligation;
- an `Option` result where the source checks its input.

**Where the code and its comments disagree**, the model follows the code. Three places:

- `SupOp::apply` is commented as returning the number of ZDD nodes reached, but it returns the number of distinct levels.
- `parse_line` is commented as accepting numbers without leading zeros, but `parse_num` accepts any run of digits.
- `make_tree` reads positions 0 and 1 in its base cases, whatever `start` is (see Findings).

Each flaw under Findings is modelled twice. An `AsWritten` member follows the code, together with a lemma that exhibits the flaw. A corrected member carries the property the code evidently intends, and the rest of the model uses it.

## Model

| member | source | states |
|---|---|---|
| TruthTable.InvertInput0 | libraries/libym_bdn/BdNetwork.cc:664-668 | Swapping code bits 0<->1 and 2<->3 yields the function with input 0 complemented, on every input pair. |
| TruthTable.InvertInput1 | libraries/libym_bdn/BdNetwork.cc:669-673 | Swapping bits 0<->2 and 1<->3 yields the function with input 1 complemented. |
| TruthTable.Complement | libraries/libym_bdn/BdNetwork.cc:750-754 | `fcode ^ 0xf` is the complemented function, and it flips bit 0. |
| TruthTable.SwapInputs | libraries/libym_bdn/BdNetwork.cc:756-771 | The bit-1/bit-2 exchange of the canonicaliser computes the function with its inputs exchanged, for every code whose bit 0 is clear, and keeps bit 0 clear. |
| Canon.FoldInversions | libraries/libym_bdn/BdNetwork.cc:663-673 | The folded code applied to the raw operand values equals the requested code applied to the values seen through the fanin inversions. |
| Canon.Literal | libraries/libym_bdn/BdNetwork.cc:688-747 | The degenerate result chosen by two code bits has those bits as its value when the node is 0 and 1 respectively, and mentions no node but the operand. |
| Canon.Canonicalize | libraries/libym_bdn/BdNetwork.cc:658-771 | A gate is needed exactly for two distinct non-null operands. Two null operands give the constant of bit 0 of the folded code. A gate's code has bit 0 clear and its fanins ordered by id. |
| Canon.CanonicalizeFolded | libraries/libym_bdn/BdNetwork.cc:678-771 | On a folded code, the degenerate and gate cases split as in `set_logic`. A gate's fanins are the operands in id order, and its code has bit 0 clear. |
| Canon.CanonicalizeSound | libraries/libym_bdn/BdNetwork.cc:658-771 | On every valuation, the canonical outcome (a folded signal, or a gate with its output inversion) computes the requested function of the two handles. |
| Canon.CanonicalizeFoldedSound | libraries/libym_bdn/BdNetwork.cc:678-771 | The degenerate folds and the gate, with its inversion, compute the folded code of the operand nodes, a null operand reading as 0. |
| Canon.CanonicalizeCommutes | libraries/libym_bdn/BdNetwork.cc:756-771 | Exchanging two distinct operands, together with the inputs of the code, gives the same canonical gate and inversion, so the hash key is independent of operand order. |
| Canon.Normalized | libraries/libym_bdn/BdNetwork.cc:750-754 | The normalised code has bit 0 clear and equals the original function XOR the split-off inversion. |
| Canon.GateCode | libraries/libym_bdn/BdNetwork.cc:750-771 | The stored code of a gate is the normalised folded code, with its inputs swapped exactly when the first operand has the larger id. |
| IdPool.Avail | libraries/libym_bdn/BdNetwork.cc:968-985 | The id `reg_node` takes is free, every smaller id is in use, and it is at most the number of ids in use. |
| IdPool.AvailWithin | libraries/libym_bdn/BdNetwork.cc:968-985 | When every id in use lies below the node-array size, the new id is either a reused id below that size or the size itself, so the array grows by at most one. |
| IdPool.AvailReuses | libraries/libym_bdn/BdNetwork.cc:989-992 | An id released by `delete_node` is handed out again when it is the smallest free one. |
| BdnTable.Hash | libraries/libym_bdn/BdNetwork.cc:644-651 | The hash is a 32-bit value whose low three bits are bits 1-3 of the code. |
| BdnTable.FindInChain | libraries/libym_bdn/BdNetwork.cc:776-783 | The chain search returns a node of the chain with the key, the first such node when the head has the key, and `None` only when no node of the chain has the key. |
| BdnTable.Lookup | libraries/libym_bdn/BdNetwork.cc:773-783 | A probe that succeeds returns a node with the requested code and fanins. |
| BdnTable.LookupExact | libraries/libym_bdn/BdNetwork.cc:773-783 | With a consistent table, a failed probe means no listed logic node has the key, and a successful one returns a listed node. |
| BdnTable.GrowSize | libraries/libym_bdn/BdNetwork.cc:1060-1065 | The new size is the old one times a power of two. It is at least the request and the old size, and less than twice the request whenever it grew. |
| BdnTable.RehashChainMembers | libraries/libym_bdn/BdNetwork.cc:1071-1079 | After moving one chain, a node is in a new bucket exactly when it was there already, or it was in the chain and its key hashes to that bucket. |
| BdnTable.RehashAllMembers | libraries/libym_bdn/BdNetwork.cc:1070-1080 | After moving every old chain, a node is in a new bucket exactly when it was in some old chain and its key hashes to that bucket. |
| BdnTable.AllocTable | libraries/libym_bdn/BdNetwork.cc:1055-1084 | The table has at least the requested size and at least 1024 buckets on first use, never shrinks, and gets the load limit `size * 9 / 5`. Nothing but the table changes. |
| BdnTable.AllocTableRehashes | libraries/libym_bdn/BdNetwork.cc:1070-1080 | Resizing keeps every chain entry, each now in the bucket its key selects under the new size, and no other entry. |
| BdnTable.AllocTableKeepsTable | libraries/libym_bdn/BdNetwork.cc:1055-1084 | Resizing keeps the table consistent with the logic-node list. |
| BdnConnect.Connect | libraries/libym_bdn/BdNetwork.cc:832-852 | After `connect`, the slot holds the new fanin and the level cache is 0 (invalid). The other network fields keep their values; the `scan_po` calls are not modelled. |
| BdnConnect.Rewire | libraries/libym_bdn/BdNetwork.cc:836-848 | The slot holds `from` and no other slot changes. The edge leaves the previous source's fanout list and is appended to the new source's list, and no other fanout list changes. Kind, id, code, inversion and level are kept; the `scan_po` calls are not modelled. |
| BdnConnect.ConnectKeepsFanouts | libraries/libym_bdn/BdNetwork.cc:836-848 | Fanin slots and fanout lists stay in agreement: each fanout list is duplicate-free and lists exactly the edges whose slot holds its node. |
| BdnLogic.Allocate | libraries/libym_bdn/BdNetwork.cc:950-985 | A fresh logic node object is created and registered with the smallest free id. |
| BdnLogic.Wire | libraries/libym_bdn/BdNetwork.cc:817-820 | The new node gets the code and both fanins, with the fanout lists updated as `connect` does. |
| BdnLogic.Hook | libraries/libym_bdn/BdNetwork.cc:822-824 | The node is pushed on the head of its bucket, and no other bucket changes. |
| BdnLogic.Table | libraries/libym_bdn/BdNetwork.cc:794-798 | Only the table changes. Below the load limit (logic-node count plus one `< mNextLimit`) it stays as it is. At or above the limit (`>=`) it at least doubles and the new limit is 9/5 of the new size. |
| BdnLogic.AddLogicNode | libraries/libym_bdn/BdNetwork.cc:785-826 | The miss branch appends one logic node with the given code and fanins to the logic-node list. |
| BdnLogic.NewLogic | libraries/libym_bdn/BdNetwork.cc:658-826 | `new_logic`: a degenerate request leaves the network unchanged, a hit returns the existing node, and a miss adds exactly one node. |
| BdnLogic.InternShape | libraries/libym_bdn/BdNetwork.cc:773-826 | The hash probe for a canonical key returns, with the given inversion, a logic node carrying that key: the one found in the bucket, or the one just added. |
| BdnLogic.InternIdempotent | libraries/libym_bdn/BdNetwork.cc:773-826 | Probing a second time for the same key, in the network the first probe left, finds the node the first probe returned and adds nothing. |
| BdnLogic.NewLogicShape | libraries/libym_bdn/BdNetwork.cc:658-826 | The returned handle is the canonical outcome: the folded signal, or a logic node with the canonical key carrying the split-off output inversion. |
| BdnLogic.NewLogicKeepsValid | libraries/libym_bdn/BdNetwork.cc:773-826 | `new_logic` keeps the network invariant and the registration of the input and output lists. The invariant covers the id pool, fanin/fanout agreement, the logic-node list and table agreement. |
| BdnLogic.NewLogicSound | libraries/libym_bdn/BdNetwork.cc:658-826 | A degenerate request returns a signal with the requested value, without touching the network. Any other request returns a logic node whose gate, with the returned inversion, computes the requested function of the operand values. |
| BdnLogic.NewLogicShares | libraries/libym_bdn/BdNetwork.cc:773-783 | For distinct operands, the network is left unchanged exactly when a listed logic node already has the canonical key, and that node is returned. |
| BdnLogic.NewLogicAdds | libraries/libym_bdn/BdNetwork.cc:785-826 | Otherwise exactly one node is added. It joins the logic-node list, takes the smallest free id and heads the bucket of its key. |
| BdnLogic.AddLogicNodeNode | libraries/libym_bdn/BdNetwork.cc:785-826 | The added node has the smallest free id and heads the bucket its key hashes to. |
| BdnLogic.LookupFindsListed | libraries/libym_bdn/BdNetwork.cc:773-783 | In a valid network, probing the key of any listed logic node finds that node. |
| BdnLogic.NewLogicIdempotent | libraries/libym_bdn/BdNetwork.cc:773-783 | Asking again for the same gate returns the same handle and leaves the network unchanged. |
| BdnLogic.NewLogicCommutes | libraries/libym_bdn/BdNetwork.cc:756-771 | Exchanging two distinct operands, together with the inputs of the code, returns the same handle and network. |
| BdnLogic.CanonicalKeyStrict | libraries/libym_bdn/BdNetwork.cc:756-771 | With registered distinct operands, the stored first fanin has a strictly smaller id than the second. |
| BdnLogic.NewAnd | libraries/libym_bdn/BdNetwork.cc:506-510 | `new_and` returns a handle whose value is the conjunction of the operand values, and keeps the network valid. |
| BdnLogic.NewOr | libraries/libym_bdn/BdNetwork.cc:528-532 | `new_or` returns a handle whose value is the disjunction of the operand values, and keeps the network valid. |
| BdnLogic.NewXor | libraries/libym_bdn/BdNetwork.cc:550-554 | `new_xor` returns a handle whose value is the exclusive or of the operand values, and keeps the network valid. |
| BdnLogic.ShapeAsWritten | libraries/libym_bdn/BdNetwork.cc:577-594 | The tree `make_tree` builds as written: halves split at `num / 2`, but base cases at positions 0 and 1 whatever `start` is. |
| BdnLogic.ShapeAsWrittenDropsLast | libraries/libym_bdn/BdNetwork.cc:581-585 | As written, a list of three reads position 0 twice and never reads position 2. |
| BdnLogic.TreeShape | libraries/libym_bdn/BdNetwork.cc:572-595 | The corrected tree lies within the positions `start .. start + num - 1`. |
| BdnLogic.TreeShapeLeaves | libraries/libym_bdn/BdNetwork.cc:572-595 | The corrected tree reads every position from `start` on exactly once, in order. |
| BdnLogic.MakeTreeAsWrittenIgnoresThird | libraries/libym_bdn/BdNetwork.cc:572-595 | As written, the gate built for three handles does not depend on the third handle. |
| BdnLogic.BuildReadsLeaves | libraries/libym_bdn/BdNetwork.cc:572-595 | A built tree depends on the handle list only at the tree's leaves: lists that agree there give the same result. |
| BdnLogic.NewAndListSound | libraries/libym_bdn/BdNetwork.cc:517-520 | From a valid network and registered operands, `new_and(list)` keeps the network valid and every listed gate as it was. On every valuation that gives each listed logic node the value of its gate, the returned handle is true exactly when every handle of the list is. |
| BdnLogic.NewOrListSound | libraries/libym_bdn/BdNetwork.cc:539-542 | As for `new_and(list)`, but the returned handle is true exactly when some handle of the list is. |
| BdnLogic.NewXorListSound | libraries/libym_bdn/BdNetwork.cc:561-564 | As for `new_and(list)`, but the returned handle is the parity of the handles of the list. |
| BdnLogic.NewLogicConsistent | libraries/libym_bdn/BdNetwork.cc:658-826 | From a valid network and registered operands, `new_logic` keeps the network valid, every registered object registered and every listed gate as it was. On every valuation that gives each listed logic node the value of its gate, the returned handle has the value of the requested function of the two operands. |
| BdnLogic.NewLogicExtends | libraries/libym_bdn/BdNetwork.cc:773-826 | `new_logic` keeps every registered object registered and every listed logic node listed with its code and fanins. Its result is registered, and for two distinct operand nodes it is a listed logic node. |
| BdnLogic.NewLogicFrame | libraries/libym_bdn/BdNetwork.cc:773-826 | `new_logic` keeps the input list and the kind, code and fanins of every existing object. |
| BdnLogic.BuildSound | libraries/libym_bdn/BdNetwork.cc:572-595 | A balanced tree built from a valid network keeps it valid and its listed gates as they were. On every valuation consistent with the result, the handle has the value of the tree: each split applies the function code to the values of its two halves. |
| BdnLogic.ClearAsWrittenReturnsStale | libraries/libym_bdn/BdNetwork.cc:182-197 | After `clear` as written, a request for the key of a node listed before the clear returns that stale node, which is no longer listed or registered. |
| BdnLogic.ClearForgetsGates | libraries/libym_bdn/BdNetwork.cc:182-197 | With the chains emptied too, the first gate after a clear is a fresh node, and it is the only listed one. |
| BdnBuild.AllocObj | libraries/libym_bdn/BdNetwork.cc:907-945 | A new node object has the requested kind, no id, no fanins and no fanouts, and lies above every existing object. |
| BdnBuild.RegNode | libraries/libym_bdn/BdNetwork.cc:968-985 | The node gets the smallest free id, the id leaves the pool, and the node array maps the id to the node. The array grows by one when the id is new. |
| BdnBuild.RegNodeAssertHolds | libraries/libym_bdn/BdNetwork.cc:971-983 | The assertion in `reg_node` cannot fail while the ids in use stay below the node-array size. |
| BdnBuild.RegNodeKeepsValid | libraries/libym_bdn/BdNetwork.cc:968-985 | Registering an unregistered object that no node uses keeps the network invariant. |
| BdnBuild.NewPort | libraries/libym_bdn/BdNetwork.cc:314-333 | A new port takes the next port number, has the requested width, and every input and output terminal is empty. |
| BdnBuild.NewPortInput | libraries/libym_bdn/BdNetwork.cc:429-444 | A fresh input node fills the bit, is registered and joins the input list. A bit outside the port, or one already filled, fails. |
| BdnBuild.NewPortInputKeepsValid | libraries/libym_bdn/BdNetwork.cc:429-444 | Adding a port input keeps the network invariant and the registration of the input and output lists. |
| BdnBuild.NewPortOutputAsWritten | libraries/libym_bdn/BdNetwork.cc:454-467 | As written, the output node fills the bit and joins the output list, but is never given an id. |
| BdnBuild.NewPortOutputAsWrittenUnregistered | libraries/libym_bdn/BdNetwork.cc:454-467 | After `new_port_output` as written, the output list holds a node with no id. |
| BdnBuild.NewPortOutput | libraries/libym_bdn/BdNetwork.cc:454-467 | The corrected version registers the output node as `new_port_input` does. |
| BdnBuild.NewPortOutputKeepsValid | libraries/libym_bdn/BdNetwork.cc:454-467 | The corrected `new_port_output` keeps the network invariant and the registration of the input and output lists. |
| BdnBuild.SetOutputFanin | libraries/libym_bdn/BdNetwork.cc:473-483 | The output node stores the handle's inversion and takes the handle's node as its only fanin. A node that is not an output terminal fails. |
| BdnBuild.SetOutputFaninKeepsValid | libraries/libym_bdn/BdNetwork.cc:473-483 | Setting an output fanin keeps the network invariant and the registration of the input and output lists. |
| BdnBuild.AllocDff | libraries/libym_bdn/BdNetwork.cc:856-879 | A D-FF object with five fresh, distinct terminal objects of the right kinds is appended to the D-FF array at the next index. |
| BdnBuild.FillDffs | libraries/libym_bdn/BdNetwork.cc:347-352 | Filler D-FFs are appended until the requested index exists. Earlier entries are kept. |
| BdnBuild.PlaceDff | libraries/libym_bdn/BdNetwork.cc:339-380 | `new_dff` takes the smallest free D-FF index, fills the array up to it and names that D-FF. |
| BdnBuild.NewDff | libraries/libym_bdn/BdNetwork.cc:339-380 | The D-FF keeps its index and joins the D-FF list. Its output terminal joins the input list and its four other terminals join the output list. |
| BdnBuild.NewDffFacts | libraries/libym_bdn/BdNetwork.cc:339-380 | After `new_dff`, the D-FF is named and keeps its index, all five terminals are registered, and the D-FF registry stays well formed. |
| BdnBuild.NewDffKeepsValid | libraries/libym_bdn/BdNetwork.cc:339-380 | A D-FF built from fresh objects keeps the network invariant and the registration of the input and output lists. |
| BdnBuild.AllocLatch | libraries/libym_bdn/BdNetwork.cc:883-900 | A latch object with fresh, distinct terminal objects of the right kinds is appended to the latch array at the next index. |
| BdnBuild.FillLatches | libraries/libym_bdn/BdNetwork.cc:393-398 | Filler latches are appended until the requested index exists. |
| BdnBuild.PlaceLatch | libraries/libym_bdn/BdNetwork.cc:386-419 | `new_latch` takes the smallest free latch index, fills the array up to it and names that latch. |
| BdnBuild.NewLatch | libraries/libym_bdn/BdNetwork.cc:386-419 | The latch joins the latch list. Its output terminal joins the input list, and its data and enable terminals join the output list. |
| BdnBuild.NewLatchFacts | libraries/libym_bdn/BdNetwork.cc:386-419 | After `new_latch`, the latch is named and keeps its index, its three terminals are registered, and the latch registry stays well formed. |
| BdnBuild.NewLatchKeepsValid | libraries/libym_bdn/BdNetwork.cc:386-419 | A latch built from fresh objects keeps the network invariant and the registration of the input and output lists. |
| BdnBuild.ClearAsWritten | libraries/libym_bdn/BdNetwork.cc:182-197 | As written, `clear` empties the name, ports, registries, id pool and the input, output and logic-node lists, and invalidates the level cache, but keeps the hash chains. |
| BdnBuild.ClearAsWrittenBreaksTable | libraries/libym_bdn/BdNetwork.cc:182-197 | As written, after `clear` the hash chains still hold logic nodes that the logic-node list no longer holds, so the table disagrees with the list. |
| BdnBuild.Clear | libraries/libym_bdn/BdNetwork.cc:182-197 | The corrected `clear` also empties every hash chain and keeps the table size. |
| BdnBuild.ClearKeepsValid | libraries/libym_bdn/BdNetwork.cc:182-197 | The corrected `clear` keeps the network invariant. |
| BdnBuild.NewNetwork | libraries/libym_bdn/BdNetwork.cc:26-35 | A new network is empty and valid, with a 1024-bucket table and a load limit of 1843. |
| BdnOrder.SortSub | libraries/libym_bdn/BdNetwork.cc:204-221 | Every fanout that is a logic node, has both fanins marked and is not yet marked is marked and emitted, in fanout-list order, and nothing else is. |
| BdnOrder.Visit | libraries/libym_bdn/BdNetwork.cc:209-219 | One fanout is emitted exactly when it is a ready, unmarked logic node. |
| BdnOrder.SeedInputs | libraries/libym_bdn/BdNetwork.cc:237-242 | Every input is marked and its ready fanouts are emitted, and the emitted nodes stay in topological order. |
| BdnOrder.DrainAll | libraries/libym_bdn/BdNetwork.cc:245-248 | Processing the emitted nodes in order leaves every ready node marked (closure). |
| BdnOrder.Sort | libraries/libym_bdn/BdNetwork.cc:227-251 | `sort` emits only logic nodes, each once and after both of its fanins. Every logic node whose fanins are reached is emitted. |
| BdnOrder.SortEmitsListed | libraries/libym_bdn/BdNetwork.cc:236-248 | In a network whose logic-node list is in creation order, an order with `sort`'s closure property emits every listed logic node. |
| BdnOrder.SortCountHolds | libraries/libym_bdn/BdNetwork.cc:249-250 | If the list is in creation order and every logic node is listed, an order with `sort`'s properties holds exactly the listed logic nodes. It has as many entries as `lnode_num()`, so the count assertion holds. |
| BdnOrder.NewLogicKeepsOrder | libraries/libym_bdn/BdNetwork.cc:799-806 | Given operands that are inputs or listed logic nodes, `new_logic` keeps the logic-node list in creation order and every logic node listed. A node it adds is appended last and reads only inputs and earlier nodes. |
| BdnOrder.NewPortInputKeepsOrder | libraries/libym_bdn/BdNetwork.cc:429-444 | `new_port_input` adds an input and changes no existing object, so the creation order and the listing of every logic node are kept. |
| BdnOrder.AllFanoutsMarked | libraries/libym_bdn/BdNetwork.cc:267-275 | The scan answers true exactly when every fanout's node is marked. |
| BdnOrder.RSortSub | libraries/libym_bdn/BdNetwork.cc:258-278 | A non-null, unmarked logic node all of whose fanouts are marked is marked and emitted. Otherwise nothing changes. |
| BdnOrder.SeedOutputs | libraries/libym_bdn/BdNetwork.cc:294-300 | Every output is marked, and its fanin is offered to `rsort_sub`. |
| BdnOrder.RDrainAll | libraries/libym_bdn/BdNetwork.cc:303-307 | Both fanins of each emitted node are offered in turn, and the reverse order is kept. |
| BdnOrder.RSort | libraries/libym_bdn/BdNetwork.cc:284-310 | `rsort` emits only logic nodes, each once and after all of its fanouts. |
| BdnOrder.ResetInputs | libraries/libym_bdn/BdNetwork.cc:1015-1019 | Every input gets level 0, and no other level changes. |
| BdnOrder.Propagate | libraries/libym_bdn/BdNetwork.cc:1021-1034 | Along a topological order, each logic node gets one more than the larger level of its fanins. |
| BdnOrder.MaxOutput | libraries/libym_bdn/BdNetwork.cc:1036-1047 | The result is the maximum level over the outputs' fanins, or 0 without fanins. |
| BdnOrder.Level | libraries/libym_bdn/BdNetwork.cc:1012-1051 | A valid cache is answered as it stands. Otherwise inputs are at 0, each logic node is one above its deepest fanin, the answer is the deepest output fanin, and the cache becomes `(level << 1) \| 1`. |
| SatCnf.FltCnfSound | programs/satpg/src/dtpg/SatEngine.cc:34-53 | The three fault clauses hold exactly when the output is `input && !fault` (stuck-at-0) or `input \|\| fault` (stuck-at-1). |
| SatCnf.PairSound | programs/satpg/src/dtpg/SatEngine.cc:313-336 | The two-clause encodings of output, BUFF and NOT nodes hold exactly when the output equals the input, or its complement for NOT. |
| SatCnf.AndFamilySound | programs/satpg/src/dtpg/SatEngine.cc:338-456 | For any fanin count, the AND, NAND, OR and NOR clauses hold exactly when the possibly inverted output is the conjunction of the possibly inverted inputs. |
| SatCnf.XorClausesSound | programs/satpg/src/dtpg/SatEngine.cc:458-520 | The `2^ni` pattern clauses hold exactly when the output is the parity of the inputs, inverted for XNOR. |
| SatCnf.Xor2Sound | programs/satpg/src/dtpg/SatEngine.cc:458-496 | The four special clauses for two inputs hold exactly when the output is the XOR (or XNOR) of the inputs. |
| SatCnf.NodeCnfSound | programs/satpg/src/dtpg/SatEngine.cc:309-525 | Every node type the encoder handles gets clauses that hold exactly when the output variable carries the node's function of its input variables. Input nodes get no clauses. |
| SatCnf.SubAddStats | programs/satpg/src/dtpg/SatEngine.cc:835-865 | Subtracting statistics that were added restores every field, wrap-around of the counter width included, and the other way round. |
| SatCnf.AddZero | programs/satpg/src/dtpg/SatEngine.cc:820-849 | Adding cleared statistics changes nothing. |
| SatCnf.MaxStatsAsWrittenOvershoots | programs/satpg/src/dtpg/SatEngine.cc:867-897 | As written, merging a variable count of 1 with 2 gives 3, which is above both. |
| SatCnf.MaxStatsAsWrittenNotMax | programs/satpg/src/dtpg/SatEngine.cc:867-897 | As written, the result exceeds both counts whenever three things hold: the destination count is positive, it is below the source count, and their sum stays below the counter modulus 2^64. |
| SatCnf.MaxStatsIsMax | programs/satpg/src/dtpg/SatEngine.cc:867-897 | In the corrected merge, each of the nine fields is at least both inputs and equal to one of them. The merge is symmetric and idempotent, and merging the same source again changes nothing. |
| DomChecker.CheckIntersect | programs/satpg/src/minpat/DomChecker.new.cc:88-119 | On two non-empty ascending lists, the merge walk answers true exactly when they share an element. |
| DomChecker.CommonNode | programs/satpg/src/minpat/DomChecker.new.cc:121-146 | With unique ids, the meet is on both dominator chains and has the smallest id of any common node. `None` means the chains share nothing. |
| DomChecker.LiftKeeps | programs/satpg/src/minpat/DomChecker.new.cc:129-142 | Lifting the node with the smaller id loses no common node. |
| DomChecker.NoneEndsChain | programs/satpg/src/minpat/DomChecker.new.cc:131-141 | When the node with the smaller id has no dominator, the chains share nothing. |
| DomChecker.FirstCands | programs/satpg/src/minpat/DomChecker.new.cc:370-386 | On a first detection, the candidates are exactly the other listed faults whose vector covers the fault's own, in list order. |
| DomChecker.Surviving | programs/satpg/src/minpat/DomChecker.new.cc:388-408 | On a later detection, the candidates kept are exactly those whose current flag covers the vector, in order. |
| DomChecker.Compact | programs/satpg/src/minpat/DomChecker.new.cc:392-408 | The in-place `wpos`/`rpos` compaction yields the surviving candidates in order and counts the dropped ones. |
| DomChecker.GetDomCandFault | programs/satpg/src/minpat/DomChecker.new.cc:348-423 | For distinct listed faults: a first detection installs the covering faults, a later one keeps the candidates that still cover, and the detection count grows by the popcount. |
| DomChecker.GetDomCandCount | programs/satpg/src/minpat/DomChecker.new.cc:348-423 | The returned count is the number of candidates dropped over all later detections. |
| DomChecker.GetDomCandFrame | programs/satpg/src/minpat/DomChecker.new.cc:348-423 | Faults missing from the list keep their data. |
| DomChecker.GetDomCandClearsFlags | programs/satpg/src/minpat/DomChecker.new.cc:412-419 | The flags are all zero again after the call, so the next round reads only its own vectors. |
| DomChecker.PruneIndependent | programs/satpg/src/minpat/DomChecker.new.cc:430-453 | The first pass of `make_cand_list` keeps exactly the candidates whose input list meets the fault's own, in order. |
| FaultMgr.FindInputFaultExact | programs/satpg/old/src/base/FaultMgr.cc:279-289 | The slot `pos * 2 + val` holds exactly the fault created for that input and value, so no two input faults share a slot. |
| FaultMgr.FindAlternativeFlips | programs/satpg/old/src/base/FaultMgr.cc:290-303 | The alternative fault is the same site with the value flipped, and flipping twice returns the fault. |
| FaultMgr.AddFaultEffect | programs/satpg/old/src/base/FaultMgr.cc:306-336 | The id is the prior count of all faults. With a representative the fault shares its class; without one it heads a new undetected class and joins the representatives. Either way it joins its class's list, and no other fault changes. |
| FaultMgr.SetStatusShared | programs/satpg/old/src/base/FaultMgr.cc:339-346 | Every fault of the class reports the new status, faults of other classes keep theirs, and the change flag is set. |
| FaultMgr.Update | programs/satpg/old/src/base/FaultMgr.cc:350-387 | When the change flag is set: undetected and aborted faults stay in order, aborted ones becoming undetected; detected and untestable faults move to their lists; the flag is cleared. Otherwise nothing happens. |
| FaultMgr.UpdatePartitions | programs/satpg/old/src/base/FaultMgr.cc:350-387 | Each remaining fault ends in exactly one of the remaining, detected and untestable lists. |
| FaultMgr.InputRepSound | programs/satpg/old/src/base/FaultMgr.cc:160-206 | Each equivalence `reg_faults` uses is sound: with the input stuck at the value, the gate outputs the forced value whatever the other inputs are. |
| FaultMgr.InputRepComplete | programs/satpg/old/src/base/FaultMgr.cc:173-206 | For gates of two or more inputs, an input value without an equivalence leaves the output free. |
| FaultMgr.OutputRep | programs/satpg/old/src/base/FaultMgr.cc:148-158 | Output faults get a representative exactly when the node has one fanout into a non-output node, and it is that fanout's input fault at the same value. |
| FaultMgr.AddInputFaults | programs/satpg/old/src/base/FaultMgr.cc:160-206 | For inputs 0..ni-1 each input fault at value v shares the class of the output fault its gate type forces at v, or heads its own class; every other registered fault keeps its record and every representative stays one. |
| FaultMgr.AddOutputFaults | programs/satpg/old/src/base/FaultMgr.cc:148-158 | Both output faults are registered; with a single fanout into a node that is not an output, each shares the class of that fanout's input fault at the same value, otherwise it heads its own class. |
| FaultMgr.RegFaults | programs/satpg/old/src/base/FaultMgr.cc:146-238 | `reg_faults` puts each input fault in the class its gate type dictates, and each output fault in the class of the single fanout's input fault when there is one, or at the head of its own class. |
| FaultMgr.TfiMark | programs/satpg/old/src/base/FaultMgr.cc:23-37 | Earlier marks stay. The new marks are exactly the unmarked nodes reachable through unmarked fanins, and a closed mark set stays closed. |
| FaultMgr.MarkedIffReached | programs/satpg/old/src/base/FaultMgr.cc:126-130 | After marking from every output, a node is marked exactly when it lies in the transitive fanin of some output. |
| FaultMgr.Partition | programs/satpg/old/src/base/FaultMgr.cc:131-141 | Representatives on marked nodes go to the remaining list and the others to the untestable list, both in order. |
| SatMulti.ApplyOption | programs/satpg/src/dtpg/SatEngineMulti2.cc:50-69 | Each known option name sets its switches. Unknown names change nothing. |
| SatMulti.SetOptionIsFold | programs/satpg/src/dtpg/SatEngineMulti2.cc:42-75 | `set_option` applies the colon-separated pieces of its argument in order; empty pieces are skipped. |
| SatMulti.SetOptionJoin | programs/satpg/src/dtpg/SatEngineMulti2.cc:42-75 | Options joined by a colon act one after the other, so a later option overrides an earlier one. |
| SatMulti.SegmentsColonFree | programs/satpg/src/dtpg/SatEngineMulti2.cc:44-49 | No piece the scan cuts out contains a colon. |
| SatMulti.RegisterSlots | programs/satpg/src/dtpg/SatEngineMulti2.cc:114-143 | After the loop, a slot holds one more than the index of the last fault stored there, or 0 when there is none. |
| SatMulti.FaultIndex | programs/satpg/src/dtpg/SatEngineMulti2.cc:195-215 | Reading a slot back: 0 means no fault, and otherwise the index is one less. |
| SatMulti.RegisterOrder | programs/satpg/src/dtpg/SatEngineMulti2.cc:118-125 | The node list holds each faulty node once, in order of first appearance. |
| SatMulti.OutputsTried | programs/satpg/src/dtpg/SatEngineMulti2.cc:156-161 | The number of outputs tried is the output count capped at the skip threshold. |
| MapRecord.SlotInjective | libraries/libym_techmap/cellmap/MapRecord.cc:383-388 | Distinct nodes or polarities never share a slot, and each slot belongs to exactly one node and polarity. |
| MapRecord.InitFits | libraries/libym_techmap/cellmap/MapRecord.cc:43-51 | Both polarities of every node below the maximum id fit in the record `init` sizes. |
| MapRecord.Copy | libraries/libym_techmap/cellmap/MapRecord.cc:54-63 | The copy has the source's size and carries over only the matches. |
| MapRecord.CopyIdempotent | libraries/libym_techmap/cellmap/MapRecord.cc:54-63 | Copying a copy changes nothing. |
| MapRecord.SetMatchReadBack | libraries/libym_techmap/cellmap/MapRecord.cc:103-136 | `get_match` returns what `set_logic_match` stored for that node and polarity, and no other slot changes. |
| MapRecord.SetInvMatchLeaf | libraries/libym_techmap/cellmap/MapRecord.cc:118-126 | The inverter match has exactly one leaf: the same node in the opposite polarity. |
| MapRecord.EncodeRoundTrip | libraries/libym_techmap/cellmap/MapRecord.cc:140-146 | A position below 8 and a sense come back out of `pos \| (sense << 3)`. |
| MapRecord.BackTrace | libraries/libym_techmap/cellmap/MapRecord.cc:327-366 | A recorded mapped node is returned unchanged. Otherwise the leaves are traced first, then one new mapped node is recorded, with the leaves' mapped nodes as fanins in leaf order. |
| MapRecord.BackTraceMemo | libraries/libym_techmap/cellmap/MapRecord.cc:331-336 | Tracing a slot again returns the same node and changes nothing, so each mapped node is created once. |
| MapRecord.GenDffWiring | libraries/libym_techmap/cellmap/MapRecord.cc:269-308 | Polarity `inv` binds the first mapped output and the other polarity binds the second. The clear and preset requests swap their subject nodes exactly when `inv` is set. |
| MapRecord.DffPosArrayDecodes | libraries/libym_techmap/cellmap/MapRecord.cc:253-263 | Each encoded entry of the D-FF pin array gives back its position and sense. |
| PatMgr.NodeWordRoundTrip | libraries/libym_techmap/cellmap/PatMgr.h:202-217 | `node_type` and `input_id` recover the type code and input number a node word was built from. |
| PatMgr.EdgeNum | libraries/libym_techmap/cellmap/PatMgr.h:230-235 | There are exactly two edges per node. |
| PatMgr.EdgeNumbering | libraries/libym_techmap/cellmap/PatMgr.h:246-262 | Every edge feeds an existing node at position 0 or 1, and edges `2k` and `2k+1` are node `k`'s two fanins, so edges and (node, position) pairs correspond one to one. |
| PatMgr.EdgeWordRoundTrip | libraries/libym_techmap/cellmap/PatMgr.h:238-271 | `edge_from` and `edge_inv` recover the source node and inversion an edge word was built from. |
| LatchCell.NewCellFields | libraries/libym_networks/cmn/CmnLatchCell.cc:64-182 | With every entry below 32, each accessor reads exactly its own entry, whatever the other entries hold. |
| LatchCell.HasIffSense | libraries/libym_networks/cmn/CmnLatchCell.cc:119-138 | Each `has_*` holds exactly when the corresponding sense is not 0. |
| LatchCell.PlainPinReadsShifted | libraries/libym_networks/cmn/CmnLatchCell.cc:140-182 | As written, a plain data pin 5 reads back as 1 (shifted right by two), and so do the two output pins. |
| LatchCell.PinsPlacedRoundTrip | libraries/libym_networks/cmn/CmnLatchCell.cc:140-182 | With the pins placed above the sense bits, every pin number below 8 reads back as given. |
| LatchCell.PinsPlacedKeepsControls | libraries/libym_networks/cmn/CmnLatchCell.cc:93-138 | Placing the pins leaves the enable, clear and preset fields as the plain constructor stores them. |
| MvnConv.ConstLoopAsWrittenSpec | libraries/libym_mvnbdnconv/MvnBdnConv.cc:294-315 | As written, the loop completes exactly when the value has a word past the last bit, and then yields the intended bits. |
| MvnConv.ConstBitsAsWrittenReads | libraries/libym_mvnbdnconv/MvnBdnConv.cc:294-315 | As written, the conversion fails exactly when the value holds no more than `bw / 32` words. |
| MvnConv.ConstBitsAsWrittenOverreads | libraries/libym_mvnbdnconv/MvnBdnConv.cc:294-315 | As written, a 32-bit constant stored in its one word reads a second word that does not exist. |
| MvnConv.ConstBitsCorrect | libraries/libym_mvnbdnconv/MvnBdnConv.cc:294-315 | Corrected: a `bw`-bit constant held in `ceil(bw / 32)` words converts, and bit `j` is bit `j % 32` of word `j / 32`. |
| MvnConv.Enqueue | libraries/libym_mvnbdnconv/MvnBdnConv.cc:125-168 | Every fanout of the node that is ready, checked in fanout order, is marked and appended to the queue. A node is ready when it is unmarked, is not a D-FF, latch, constant, output or inout, and all its inputs' sources are marked. |
| MvnConv.EnqueueOnce | libraries/libym_mvnbdnconv/MvnBdnConv.cc:125-168 | A queued node is marked, so over a run each node is queued at most once. |
| MvnConv.PortLayout | libraries/libym_mvnbdnconv/MvnBdnConv.cc:210-238 | Each port reference contributes its bits in order: the full width, one bit, or `msb - lsb + 1` bits. The destination position advances by one per bit. |
| MvnConv.MakeIoEffect | libraries/libym_mvnbdnconv/MvnBdnConv.cc:95-124 | An input gets a port input and an output gets a port output. An inout gets both at the same bit, and only the input is mapped. Other node types create nothing. |
| MvnConv.MakePortIoMaps | libraries/libym_mvnbdnconv/MvnBdnConv.cc:95-124 | After a port's nodes are made, every port-typed bit of the layout maps to a node of the right kind, on that port, at a position the layout assigns to that bit. |
| MvnConv.PairPins | libraries/libym_mvnbdnconv/MvnBdnConv.cc:365-374 | Pair `k` reads its control from input `2k + 2` and its value from `2k + 3`. Every pair lies past data and clock, and no two pairs share an input. |
| MvnConv.AsyncSetReset | libraries/libym_mvnbdnconv/MvnBdnConv.cc:363-384 | The first active control decides: `set[j]` is its value bit and `reset[j]` the complement, both false with no active control. So set and reset never hold together. |
| MincovParse.ParseNumSpec | libym_algo/tests/mincov/mincov_test.cc:31-56 | `parse_num` succeeds exactly when a digit follows the optional `-`. The position then ends the digit run, and the number is its value, negated after `-`. |
| MincovParse.ParseNumRoundTrip | libym_algo/tests/mincov/mincov_test.cc:31-56 | The decimal text of any integer parses back to it, stopping just after the text, whatever non-digit follows. |
| MincovParse.ParseLine | libym_algo/tests/mincov/mincov_test.cc:66-91 | A line starting with `#` is a comment. Otherwise a number, spaces or tabs and a second number give the pair, whatever follows. Anything else, an empty line included, is malformed. |
| MincovParse.ParseLineRoundTrip | libym_algo/tests/mincov/mincov_test.cc:66-91 | Two numbers printed with a non-empty gap of spaces and tabs read back as the pair, whatever non-digit text follows. |
| MincovParse.ParseDataSpec | libym_algo/tests/mincov/mincov_test.cc:93-120 | `parse_data` stores the pairs of the lines before the first line that ends the read, in order. It fails exactly when that line is malformed, not an end marker or an over-long line. |
| MincovParse.ParseDataStopsAtMarker | libym_algo/tests/mincov/mincov_test.cc:110-113 | The pair `-1 -1` ends the read. It is not stored, and nothing after it is looked at. |
| FileInfo.NewFileInfo | libraries/libym_utils/FileInfoMgr.cc:233-252 | A new info's id is the number of infos created before it. |
| FileInfo.ClearRestartsIds | libraries/libym_utils/FileInfoMgr.cc:254-259 | After `clear`, ids start again from 0. |
| FileInfo.NewFileInfos | libraries/libym_utils/FileInfoMgr.cc:233-239 | A run of `new_file_info` calls hands out consecutive ids from the table size on. |
| FileInfo.ParentLocList | libraries/libym_utils/FileInfoMgr.cc:86-93 | The include ancestors are listed with the top-level file first, ending with the direct includer. |
| FileInfo.ParentLocListLoop | libraries/libym_utils/FileInfoMgr.cc:126-132 | Walking up the parents and pushing each to the front yields the same ancestor list. |
| FileInfo.ChainIncreasing | libraries/libym_utils/FileInfoMgr.cc:86-93 | File ids strictly increase down the include chain, so no file appears twice. |
| FileInfo.InfoTextIncluded | libraries/libym_utils/FileInfoMgr.cc:100-115 | An included file prints one `In file included from` line per ancestor, top-level first, then its name. |
| FileInfo.LocText | libraries/libym_utils/FileInfoMgr.cc:138-152 | A valid location prints its file, line and column. An invalid one prints `invalid file_loc`. |
| FileInfo.RegionTextInvalid | libraries/libym_utils/FileInfoMgr.cc:169-207 | A region prints as `---` exactly when its first file is invalid. |
| FileInfo.RegionTextPoint | libraries/libym_utils/FileInfoMgr.cc:171-180 | A one-position region prints as that location. |
| FileInfo.RegionTextTwoFiles | libraries/libym_utils/FileInfoMgr.cc:195-204 | A region across files prints its two locations joined by ` - `. |
| MislibPt.ToExpr | libraries/libym_mislib/MislibPtImpl1.cc:258-264 | Const0 gives zero and Const1 gives one. A string gives the positive literal of its mapped pin. A result exists only for expression kinds. |
| MislibPt.ToExprDefined | libraries/libym_mislib/MislibPtImpl1.cc:36-82 | Conversion succeeds exactly for Str, Const0 and Const1, provided a string names a mapped pin. |
| MislibPt.PushBack | libraries/libym_mislib/MislibPtImpl1.cc:541-551 | The first push sets both top and end. A later push links after the end and moves the end, leaving the top. |
| MislibPt.PushBackAfterPlainNode | libraries/libym_mislib/MislibPtImpl1.cc:150-161 | After a node of a kind defined here, pushing records no link, because the base `set_next` does nothing. |
| MislibPt.WalkFromPlainNode | libraries/libym_mislib/MislibPtImpl1.cc:562-573 | Walking a list whose first element is of a kind defined here reaches that element alone. |
| MislibPt.PushAll | libraries/libym_mislib/MislibPtImpl1.cc:541-558 | Pushing fresh chained nodes yields a list whose top is the first and end the last, and whose walk gives them in push order. |
| SupOp.ApplySub | libraries/libym_logic/zdd/SupOp.cc:91-111 | Everything reachable from the edge ends up marked. Each newly marked node's level is recorded once, and nothing else is recorded. |
| SupOp.Sort | libraries/libym_logic/zdd/SupOp.cc:51 | The sorted list has the same elements and is strictly ascending. |
| SupOp.Apply | libraries/libym_logic/zdd/SupOp.cc:35-53 | The support list is exactly the set of levels of the nodes reachable from the roots, strictly ascending. The result is its length. |
| SupOp.ToList | libraries/libym_logic/zdd/SupOp.cc:58-67 | The variable list maps each support level, in order, and the result is its length. |
| FopMinPat.NewFop | programs/satpg/src/minpat/Fop2MinPat.cc:25-32 | The limit starts at 1, with a zero count and an empty list for every fault. |
| FopMinPat.Detect | programs/satpg/src/minpat/Fop2MinPat.cc:42-56 | The count grows by the popcount of the bit vector, and the patterns of the set bits are appended in bit order. Other faults are untouched. Skip is requested exactly when the count reaches the limit. |
| FopMinPat.Collect | programs/satpg/src/minpat/Fop2MinPat.cc:47-52 | The loop over the bits of one word yields the number of set bits and the patterns of exactly those bits, in bit order. |
| FopMinPat.PickedHasDetecting | programs/satpg/src/minpat/Fop2MinPat.cc:47-52 | Every detecting pattern is among those appended. |
| FopMinPat.DetectKeepsCountsMatch | programs/satpg/src/minpat/Fop2MinPat.cc:42-56 | A fault's count stays equal to the length of its pattern list across detections. |
| FopMinPat.ClearCountIsFresh | programs/satpg/src/minpat/Fop2MinPat.cc:59-67 | After `clear_count`, the state is that of a new object with the same limit and patterns. |
| FopMinPat.SetLimit | programs/satpg/src/minpat/Fop2MinPat.cc:70-74 | Only the limit changes. |
| BdnDump.DumpOutput | libraries/libym_networks/bdn/BdnDumper.cc:25-47 | A constant fanin prints `1` or `0` by its inversion. Any other prints an optional `~` and the fanin's name. |
| BdnDump.DumpOutputRoundTrip | libraries/libym_networks/bdn/BdnDumper.cc:25-47 | The printed text determines the terminal: reading it back gives the constant or the inverted or plain name. |
| BdnDump.DffFieldsSpec | libraries/libym_networks/bdn/BdnDumper.cc:83-97 | CLEAR and PRESET are listed exactly when that terminal has a fanin, and the listed terminals are the D-FF's own, in line order. |
| BdnDump.LatchFieldsSpec | libraries/libym_networks/bdn/BdnDumper.cc:109-125 | ENABLE, CLEAR and PRESET are listed exactly when that terminal has a fanin. |
| BdnDump.PortRefBit | libraries/libym_networks/bdn/BdnDumper.cc:136-139 | A port wider than one bit names the bit between brackets, and a one-bit port prints no brackets. |
| BdnDump.LogicLineOp | libraries/libym_networks/bdn/BdnDumper.cc:157-171 | The operator follows the first fanin and a space; it is `^` exactly for an XOR node. The first fanin carries `~` exactly when it is inverted. |

## Left out

- `BdNetwork::copy`, `change_logic`, `delete_node` and `new_logic` from a logic expression are not modelled. They are not among the operations the other members need, and `change_logic` rewrites a fanout list while iterating over it. Only the id release of `delete_node` is covered, by `IdPool.AvailReuses`.
- Arena and placement allocation are left out, and the id pool (`ItvlMgr`) is abstracted as the smallest free id. The pool's own code is not part of this model.
- The floating-point load factor 1.8 is replaced by the integer limit `size * 9 / 5`.
- BdnConnect.Connect: `scan_po` is called on the old and the new source (BdNetwork.cc:842, 847). It is defined in a header that is not part of this model, so the output-fanout flag it maintains is not modelled.
- BdnConnect.Rewire: for the same reason, the flag `scan_po` recomputes is not part of what the contract keeps.
- BdnBuild.NewDffKeepsValid: proved only when the new index lies past the D-FF array. After `clear()` (BdNetwork.cc:186-196) the pool hands out a released index whose old slot is reused (BdNetwork.cc:345-354), and that case is not proved.
- BdnBuild.NewLatchKeepsValid: proved only when the new index lies past the latch array; the reuse of a released slot after `clear()` is not proved, as for D-FFs.
- BdnOrder.SortCountHolds: creation order is shown to hold for a new network and to be kept by `new_logic` (on inputs and listed nodes) and `new_port_input` (`BdnOrder.NewLogicKeepsOrder`, `BdnOrder.NewPortInputKeepsOrder`). It is not shown for `new_dff`, `new_latch` or the changing operations.
- SatCnf.SubAddStats: the source text does not fix the width of the statistics counters. The model takes unsigned 64-bit counters, with arithmetic modulo 2^64 (`SatCnf.StatMod`).
- BdnOrder.RSort: proves that the emitted order is sound (only logic nodes, each once, after all fanouts), not that every logic node is emitted.
- BdnOrder.Level: the cache word `(level << 1) | 1` is modelled on unbounded integers, ignoring the 32-bit wrap of a level of 2^31 or more.
- SatEngine's solver calls, `make_dlit_cnf`, `mark_region`, `solve`, timers and the `tmp_lits_*` helpers are left out. They drive a solver that is not part of this model.
- `SatEngineMulti2::run` is modelled only as far as the fault-index slots and the output cap. Its clause generation drives a solver.
- `DomChecker`: the fault simulation, the dominance checks and the second, sorting half of `make_cand_list` are left out. They depend on a simulator and solver that are not part of this model.
- DomChecker.Surviving: the later-detection filter is written for a flag array that holds the vectors of the current list; `DomChecker.WriteFlagsListed` shows this holds for distinct fault ids.
- The `kTgGateCplx` branch of `reg_faults` is left out because it composes logic expressions, which are not part of this model.
- The input-node loop of `set_ssa_fault` is `FaultMgr.RegFaults` with no inputs, and is not stated separately.
- FaultMgr: `FaultMgr.h` is not part of this model, so a fresh equivalence class is taken to start undetected.
- MislibPt: numbers (`MislibPtNum`) carry a `double` and are kept only as a kind. The node classes with a real `next` link are represented by the single `Chained` kind.
- MislibPt.Walk: takes a fuel bound, which limits how far the list dump follows links.
- SupOp.ApplySub: the `edge1` loop is written as a tail call, and the `clear_mark` pass is implicit because marks are a returned set. `sweep` does nothing in the source and is not modelled.
- SupOp: the `list` overload of `to_list` appends without clearing; only the `vector` overload is modelled.
- FopMinPat.Detect: the 64-bit word is read through `BitList` (bit `i` by shifting), and `set_skip` becomes a returned flag.
- BdnDump: the text of `id_str` is assumed to be a non-empty name not starting with `~`, `0` or `1` (`BdnDump.IdStrOk`). Branches that end in `assert_not_reached` cannot be represented.
- MincovParse: the parsed line is the text `getline` returns. A line of 1024 characters or more stops the read, as a failed `getline` does. `atoi` is taken on unbounded integers, without overflow.
- MincovParse.ParseLineRoundTrip: the gap between the two numbers must be non-empty. Without a gap, two digit runs read as one number.
- FileInfo: the well-formedness of the info table (every include location names an earlier file) is a precondition. The `FileInfo` and `FileLoc` classes of the headers are not shown and are modelled as records.
- FileInfo.RegionTextTwoFiles: regions across files are required to have a valid last file; the source does not check this.
- I/O streams, Tcl and Python bindings, GDS scanning, timing fields and declaration-only headers are outside this model.

## Findings

| source | as written | input that shows it | evidently intended | confidence | as-written member | corrected member |
|---|---|---|---|---|---|---|
| libraries/libym_bdn/BdNetwork.cc:577-594 | `make_tree`'s base cases read `node_list[0]` and `node_list[1]` whatever `start` is | `new_and` of three handles: `nh` is 1, the left half (`start` 0, `num` 1) reads position 0 and the right half (`start` 1, `num` 2) reads positions 0 and 1, so the gates read handles 0, 0 and 1 and never handle 2 | base cases read `node_list[start]` and `node_list[start + 1]` | high (not executed) | BdnLogic.ShapeAsWrittenDropsLast | BdnLogic.TreeShapeLeaves |
| libraries/libym_bdn/BdNetwork.cc:182-197 | `clear` empties the logic-node list but leaves every node in the hash chains | `new_and(a, b)`, then `clear`, then the same request returns the stale node | the chains are emptied with the list | medium (not executed) | BdnBuild.ClearAsWrittenBreaksTable | BdnBuild.ClearKeepsValid |
| libraries/libym_bdn/BdNetwork.cc:454-467 | `new_port_output` never calls `reg_node`, unlike `new_port_input` | any `new_port_output`: the output list gets a node without an id | the output node is registered | medium (not executed) | BdnBuild.NewPortOutputAsWrittenUnregistered | BdnBuild.NewPortOutputKeepsValid |
| programs/satpg/src/dtpg/SatEngine.cc:867-897 | `max_sat_stats` adds the source field (`+=`) when it is larger, except for the restart count | `mVarNum` 1 against 2 gives 3 | each field takes the larger value | high (not executed) | SatCnf.MaxStatsAsWrittenOvershoots | SatCnf.MaxStatsIsMax |
| libraries/libym_networks/cmn/CmnLatchCell.cc:140-182 | `data_pos`, `q_pos` and `iq_pos` read bits 2-4 of slots that the constructor fills with plain pin numbers | data pin 5 reads back as 1 | the pin numbers are stored above the sense bits (or read from bits 0-4) | medium (not executed) | LatchCell.PlainPinReadsShifted | LatchCell.PinsPlacedRoundTrip |
| libraries/libym_mvnbdnconv/MvnBdnConv.cc:294-315 | after bit 31 of a word the next word is read even when no bit follows | a 32-bit constant in one word reads `value[1]` | the next word is read only when another bit follows | high (not executed) | MvnConv.ConstBitsAsWrittenOverreads | MvnConv.ConstBitsCorrect |
