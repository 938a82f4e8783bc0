/** The support operation on ZDDs (`SupOp`): the levels of all nodes
    reachable from a list of root edges, each level once, in ascending
    order. */
module SupOp {
  import opened Base

  /** A ZDD node: its level and its two child edges; `None` is a terminal
      edge, which has no node. */
  datatype ZNode = ZNode(level: nat, edge0: Option<nat>, edge1: Option<nat>)

  /** The node table, keyed by node id. */
  type Graph = map<nat, ZNode>

  /** Children have smaller ids than their parent, so the graph is acyclic;
      every level is below the manager's `max_level`. */
  predicate GraphOk(g: Graph, maxLevel: nat) {
    forall n :: n in g ==> g[n].level < maxLevel && ChildOk(g, n, g[n].edge0) && ChildOk(g, n, g[n].edge1)
  }

  predicate ChildOk(g: Graph, n: nat, e: Option<nat>) {
    e.Some? ==> e.value in g && e.value < n
  }

  predicate EdgeOk(g: Graph, e: Option<nat>) {
    e.Some? ==> e.value in g
  }

  /** The nodes reachable from edge `e`. */
  function Reach(g: Graph, maxLevel: nat, e: Option<nat>): (r: set<nat>)
    requires GraphOk(g, maxLevel) && EdgeOk(g, e)
    ensures forall n :: n in r ==> n in g
    ensures e.Some? ==> e.value in r
    ensures forall n :: n in r ==> e.Some? && n <= e.value
    decreases if e.Some? then e.value + 1 else 0
  {
    if e.None? then {}
    else
      var n := g[e.value];
      {e.value} + Reach(g, maxLevel, n.edge0) + Reach(g, maxLevel, n.edge1)
  }

  /** The nodes reachable from any of the roots. */
  function ReachAll(g: Graph, maxLevel: nat, roots: seq<Option<nat>>): (r: set<nat>)
    requires GraphOk(g, maxLevel) && forall i :: 0 <= i < |roots| ==> EdgeOk(g, roots[i])
    ensures forall n :: n in r ==> n in g
  {
    if |roots| == 0 then {}
    else ReachAll(g, maxLevel, roots[..|roots| - 1]) + Reach(g, maxLevel, roots[|roots| - 1])
  }

  /** The levels of a set of nodes: the support they span. */
  function Levels(g: Graph, nodes: set<nat>): set<nat>
    requires forall n :: n in nodes ==> n in g
  {
    set n | n in nodes :: g[n].level
  }

  /** The elements of a sequence, as a set. */
  function Elems(s: seq<nat>): set<nat> {
    set i | 0 <= i < |s| :: s[i]
  }

  /** Every marked node outside `pending` has its children marked. */
  predicate ClosedExcept(g: Graph, marked: set<nat>, pending: set<nat>) {
    forall n :: n in marked && n !in pending ==> n in g && Covered(g[n].edge0, marked) && Covered(g[n].edge1, marked)
  }

  predicate Covered(e: Option<nat>, marked: set<nat>) {
    e.Some? ==> e.value in marked
  }

  /** The search state: node marks, per-level marks (`mMarks`) and the
      support list (`mSupList`). */
  datatype State = State(marked: set<nat>, levelMarked: set<nat>, supList: seq<nat>)

  /** The per-level marks are exactly the levels of the marked nodes and
      the support list holds each of them once. */
  predicate StateOk(g: Graph, st: State) {
    (forall n :: n in st.marked ==> n in g)
    && st.levelMarked == Levels(g, st.marked)
    && Elems(st.supList) == st.levelMarked && NoDup(st.supList)
  }

  /** `apply_sub(e)`: stop at a terminal or marked node; otherwise mark the
      node, record its level if new, and visit both children (the visit of
      `edge1` is the loop of the source, written as the tail call). */
  method ApplySub(g: Graph, maxLevel: nat, e: Option<nat>, st: State, ghost pending: set<nat>) returns (st': State)
    requires GraphOk(g, maxLevel) && EdgeOk(g, e) && StateOk(g, st)
    requires ClosedExcept(g, st.marked, pending)
    requires e.Some? ==> forall p :: p in pending ==> e.value < p
    ensures StateOk(g, st')
    ensures st.marked <= st'.marked <= st.marked + Reach(g, maxLevel, e)
    ensures Reach(g, maxLevel, e) <= st'.marked
    ensures ClosedExcept(g, st'.marked, pending)
    ensures |st.supList| <= |st'.supList| && st'.supList[..|st.supList|] == st.supList
    decreases if e.Some? then e.value + 1 else 0
  {
    if e.None? {
      return st;
    }
    var id := e.value;
    if id in st.marked {
      ClosedReach(g, maxLevel, st.marked, pending, id);
      return st;
    }
    var node := g[id];
    var marked := st.marked + {id};
    var levelMarked := st.levelMarked;
    var supList := st.supList;
    LevelsAdd(g, st.marked, id);
    if node.level !in levelMarked {
      supList := supList + [node.level];
      levelMarked := levelMarked + {node.level};
      ElemsSnoc(st.supList, node.level);
    }
    var mid := State(marked, levelMarked, supList);
    var st1 := ApplySub(g, maxLevel, node.edge0, mid, pending + {id});
    st' := ApplySub(g, maxLevel, node.edge1, st1, pending + {id});
    PrefixTrans(st.supList, mid.supList, st1.supList);
    PrefixTrans(st.supList, st1.supList, st'.supList);
  }

  /** From a marked node that is not pending, with every pending node
      above it, everything reachable is marked. */
  lemma {:induction false} ClosedReach(g: Graph, maxLevel: nat, marked: set<nat>, pending: set<nat>, id: nat)
    requires GraphOk(g, maxLevel) && ClosedExcept(g, marked, pending)
    requires id in marked && forall p :: p in pending ==> id < p
    ensures Reach(g, maxLevel, Some(id)) <= marked
    decreases id
  {
    var n := g[id];
    if n.edge0.Some? {
      ClosedReach(g, maxLevel, marked, pending, n.edge0.value);
    }
    if n.edge1.Some? {
      ClosedReach(g, maxLevel, marked, pending, n.edge1.value);
    }
  }

  /** Marking one more node adds its level. */
  lemma LevelsAdd(g: Graph, nodes: set<nat>, id: nat)
    requires forall n :: n in nodes ==> n in g
    requires id in g
    ensures Levels(g, nodes + {id}) == Levels(g, nodes) + {g[id].level}
  {
    var l := Levels(g, nodes + {id});
    assert g[id].level in l;
    forall v | v in l
      ensures v in Levels(g, nodes) + {g[id].level}
    {
      var n :| n in nodes + {id} && g[n].level == v;
      if n != id {
        assert v in Levels(g, nodes);
      }
    }
  }

  /** Appending a new element to a duplicate-free sequence. */
  lemma ElemsSnoc(s: seq<nat>, x: nat)
    requires NoDup(s) && x !in Elems(s)
    ensures Elems(s + [x]) == Elems(s) + {x} && NoDup(s + [x])
  {
    var t := s + [x];
    assert t[|s|] == x;
    forall v | v in Elems(t)
      ensures v in Elems(s) + {x}
    {
      var i :| 0 <= i < |t| && t[i] == v;
      if i < |s| {
        assert t[i] == s[i];
      }
    }
    forall v | v in Elems(s)
      ensures v in Elems(t)
    {
      var i :| 0 <= i < |s| && s[i] == v;
      assert t[i] == v;
    }
    forall i, j | 0 <= i < j < |t|
      ensures t[i] != t[j]
    {
      if j == |s| {
        assert t[i] == s[i];
        assert s[i] in Elems(s);
      } else {
        assert t[i] == s[i] && t[j] == s[j];
      }
    }
  }

  /** Inserting into an ascending sequence. */
  function Insert(x: nat, s: seq<nat>): (r: seq<nat>)
    ensures |r| == |s| + 1
    ensures Elems(r) == Elems(s) + {x}
    ensures StrictlySorted(s) && x !in Elems(s) ==> StrictlySorted(r)
  {
    if |s| == 0 then
      assert Elems([x]) == {x} by {
        assert [x][0] == x;
      }
      [x]
    else if x <= s[0] then
      InsertFront(x, s);
      [x] + s
    else
      var rest := Insert(x, s[1..]);
      InsertLater(x, s, rest);
      [s[0]] + rest
  }

  /** `[x] + s` holds `x` and the elements of `s`, ascending when `x` is
      below them all. */
  lemma InsertFront(x: nat, s: seq<nat>)
    requires |s| > 0 && x <= s[0]
    ensures Elems([x] + s) == Elems(s) + {x}
    ensures StrictlySorted(s) && x !in Elems(s) ==> StrictlySorted([x] + s)
  {
    var t := [x] + s;
    ElemsCons(x, s);
    if StrictlySorted(s) && x !in Elems(s) {
      assert s[0] in Elems(s);
      forall i, j | 0 <= i < j < |t|
        ensures t[i] < t[j]
      {
        if i == 0 {
          assert t[j] == s[j - 1];
          assert s[0] <= s[j - 1];
        } else {
          assert t[i] == s[i - 1] && t[j] == s[j - 1];
        }
      }
    }
  }

  /** The inductive step of `Insert` when `x` goes after the head. */
  lemma InsertLater(x: nat, s: seq<nat>, rest: seq<nat>)
    requires |s| > 0 && x > s[0]
    requires |rest| == |s| && Elems(rest) == Elems(s[1..]) + {x}
    requires StrictlySorted(s[1..]) && x !in Elems(s[1..]) ==> StrictlySorted(rest)
    ensures Elems([s[0]] + rest) == Elems(s) + {x}
    ensures StrictlySorted(s) && x !in Elems(s) ==> StrictlySorted([s[0]] + rest)
  {
    assert s == [s[0]] + s[1..];
    ElemsCons(s[0], rest);
    ElemsCons(s[0], s[1..]);
    if StrictlySorted(s) && x !in Elems(s) {
      assert StrictlySorted(s[1..]) by {
        forall i, j | 0 <= i < j < |s[1..]|
          ensures s[1..][i] < s[1..][j]
        {
          assert s[1..][i] == s[i + 1] && s[1..][j] == s[j + 1];
        }
      }
      assert x !in Elems(s[1..]);
      var t := [s[0]] + rest;
      forall i, j | 0 <= i < j < |t|
        ensures t[i] < t[j]
      {
        if i == 0 {
          assert t[j] == rest[j - 1];
          assert rest[j - 1] in Elems(rest);
          if rest[j - 1] != x {
            var k :| 0 <= k < |s[1..]| && s[1..][k] == rest[j - 1];
            assert s[1..][k] == s[k + 1];
          }
        } else {
          assert t[i] == rest[i - 1] && t[j] == rest[j - 1];
        }
      }
    }
  }

  lemma ElemsCons(x: nat, s: seq<nat>)
    ensures Elems([x] + s) == Elems(s) + {x}
  {
    var t := [x] + s;
    assert t[0] == x;
    forall v | v in Elems(t)
      ensures v in Elems(s) + {x}
    {
      var i :| 0 <= i < |t| && t[i] == v;
      if i > 0 {
        assert t[i] == s[i - 1];
      }
    }
    forall v | v in Elems(s)
      ensures v in Elems(t)
    {
      var i :| 0 <= i < |s| && s[i] == v;
      assert t[i + 1] == v;
    }
  }

  /** `sort(mSupList)`: the same elements, ascending. */
  function Sort(s: seq<nat>): (r: seq<nat>)
    ensures |r| == |s| && Elems(r) == Elems(s)
    ensures NoDup(s) ==> StrictlySorted(r)
  {
    if |s| == 0 then []
    else
      var init := s[..|s| - 1];
      var last := s[|s| - 1];
      assert s == init + [last];
      SnocParts(init, last);
      Insert(last, Sort(init))
  }

  /** The parts of `init + [last]` seen by `Sort`. */
  lemma SnocParts(init: seq<nat>, last: nat)
    ensures Elems(init + [last]) == Elems(init) + {last}
    ensures NoDup(init + [last]) ==> NoDup(init) && last !in Elems(init)
  {
    var t := init + [last];
    assert t[|init|] == last;
    forall v | v in Elems(t)
      ensures v in Elems(init) + {last}
    {
      var i :| 0 <= i < |t| && t[i] == v;
      if i < |init| {
        assert t[i] == init[i];
      }
    }
    forall v | v in Elems(init)
      ensures v in Elems(t)
    {
      var i :| 0 <= i < |init| && init[i] == v;
      assert t[i] == v;
    }
    if NoDup(t) {
      forall i, j | 0 <= i < j < |init|
        ensures init[i] != init[j]
      {
        assert t[i] == init[i] && t[j] == init[j];
      }
      forall i | 0 <= i < |init|
        ensures init[i] != last
      {
        assert t[i] == init[i];
      }
    }
  }

  /** A duplicate-free sequence has as many elements as its set. */
  lemma {:induction false} ElemsCard(s: seq<nat>)
    requires NoDup(s)
    ensures |Elems(s)| == |s|
  {
    if |s| > 0 {
      var init := s[..|s| - 1];
      assert s == init + [s[|s| - 1]];
      SnocParts(init, s[|s| - 1]);
      ElemsCard(init);
    }
  }

  /** `apply(edge_list)`: visit every root, then sort the support list;
      the result is the number of distinct levels. */
  method Apply(g: Graph, maxLevel: nat, roots: seq<Option<nat>>) returns (n: nat, supList: seq<nat>)
    requires GraphOk(g, maxLevel) && forall i :: 0 <= i < |roots| ==> EdgeOk(g, roots[i])
    ensures Elems(supList) == Levels(g, ReachAll(g, maxLevel, roots))
    ensures StrictlySorted(supList) && n == |supList|
    ensures n == |Levels(g, ReachAll(g, maxLevel, roots))|
    ensures forall i :: 0 <= i < |supList| ==> supList[i] < maxLevel
  {
    var st := State({}, {}, []);
    assert Levels(g, {}) == {};
    assert Elems([]) == {};
    var k := 0;
    while k < |roots|
      invariant k <= |roots| && StateOk(g, st)
      invariant st.marked == ReachAll(g, maxLevel, roots[..k])
      invariant ClosedExcept(g, st.marked, {})
    {
      assert roots[..k + 1][..k] == roots[..k];
      st := ApplySub(g, maxLevel, roots[k], st, {});
      k := k + 1;
    }
    assert roots[..k] == roots;
    supList := Sort(st.supList);
    n := |supList|;
    ElemsCard(st.supList);
    forall i | 0 <= i < |supList|
      ensures supList[i] < maxLevel
    {
      assert supList[i] in Elems(supList);
      var v :| v in st.marked && g[v].level == supList[i];
    }
  }

  /** `to_list(var_list)`: the variable of each support level, in the same
      order; the result is the list length. */
  function ToList(supList: seq<nat>, varOf: map<nat, nat>): (r: (nat, seq<nat>))
    requires forall i :: 0 <= i < |supList| ==> supList[i] in varOf
    ensures r.0 == |supList| == |r.1|
    ensures forall i :: 0 <= i < |supList| ==> r.1[i] == varOf[supList[i]]
  {
    (|supList|, seq(|supList|, i requires 0 <= i < |supList| => varOf[supList[i]]))
  }
}
