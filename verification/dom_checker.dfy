/** The candidate bookkeeping of `DomChecker` (satpg minpat): sorted-list
    intersection, the meet of two immediate-dominator chains, and the
    narrowing of each fault's list of possibly dominated faults by the
    detection bit vectors of successive fault simulations. */
module DomChecker {
  import opened Base

  // ---------------------------------------------------------------------
  // check_intersect

  predicate Ascending(s: seq<nat>) {
    forall i, j :: 0 <= i <= j < |s| ==> s[i] <= s[j]
  }

  predicate Intersects(l1: seq<nat>, l2: seq<nat>) {
    exists i, j :: 0 <= i < |l1| && 0 <= j < |l2| && l1[i] == l2[j]
  }

  /** `check_intersect(list1, list2)`: a merge walk over two ascending
      lists.  Both lists are read at index 0 before any test, so neither may
      be empty. */
  method CheckIntersect(l1: seq<nat>, l2: seq<nat>) returns (b: bool)
    requires |l1| > 0 && |l2| > 0
    requires Ascending(l1) && Ascending(l2)
    ensures b <==> Intersects(l1, l2)
  {
    var i1, i2 := 0, 0;
    while true
      invariant 0 <= i1 < |l1| && 0 <= i2 < |l2|
      invariant forall a, c :: 0 <= a < i1 && 0 <= c < |l2| ==> l1[a] != l2[c]
      invariant forall a, c :: 0 <= a < |l1| && 0 <= c < i2 ==> l1[a] != l2[c]
      decreases |l1| - i1 + |l2| - i2
    {
      if l1[i1] < l2[i2] {
        i1 := i1 + 1;
        if i1 >= |l1| {
          return false;
        }
      } else if l1[i1] > l2[i2] {
        i2 := i2 + 1;
        if i2 >= |l2| {
          return false;
        }
      } else {
        return true;
      }
    }
  }

  // ---------------------------------------------------------------------
  // common_node

  /** A node of the dominator tree: its id and its immediate dominator. */
  datatype DomNode = DomNode(id: nat, immDom: Option<nat>)

  type DomTree = map<nat, DomNode>

  /** Dominators lie inside the tree and carry larger ids than the nodes
      they dominate; distinct nodes carry distinct ids. */
  predicate TreeOk(t: DomTree) {
    && (forall n :: n in t && t[n].immDom.Some? ==>
          t[n].immDom.value in t && t[t[n].immDom.value].id > t[n].id)
    && (forall m, n :: m in t && n in t && m != n ==> t[m].id != t[n].id)
  }

  /** The nodes whose id is at least that of `n`. */
  function Above(t: DomTree, n: nat): set<nat>
    requires n in t
  {
    set m | m in t && t[m].id >= t[n].id
  }

  lemma AboveShrinks(t: DomTree, n: nat)
    requires TreeOk(t) && n in t && t[n].immDom.Some?
    ensures |Above(t, t[n].immDom.value)| < |Above(t, n)|
  {
    var s := Above(t, t[n].immDom.value);
    var big := Above(t, n);
    assert n !in s;
    assert s + {n} <= big;
    assert big == (s + {n}) + (big - (s + {n}));
    assert |s + {n}| == |s| + 1;
  }

  /** `x` lies on the dominator chain starting at `n`. */
  predicate OnChain(t: DomTree, n: nat, x: nat)
    requires TreeOk(t) && n in t
    decreases |Above(t, n)|
  {
    x == n || (t[n].immDom.Some? &&
               (AboveShrinks(t, n);
                OnChain(t, t[n].immDom.value, x)))
  }

  lemma {:induction false} OnChainAbove(t: DomTree, n: nat, x: nat)
    requires TreeOk(t) && n in t && OnChain(t, n, x)
    ensures x in t && t[x].id >= t[n].id
    ensures t[x].id == t[n].id ==> x == n
    decreases |Above(t, n)|
  {
    if x != n {
      AboveShrinks(t, n);
      OnChainAbove(t, t[n].immDom.value, x);
    }
  }

  predicate Common(t: DomTree, n1: nat, n2: nat, x: nat)
    requires TreeOk(t) && n1 in t && n2 in t
  {
    OnChain(t, n1, x) && OnChain(t, n2, x)
  }

  /** `common_node(node1, node2)`: lift the node with the smaller id to its
      immediate dominator until both meet.  The result lies on both chains
      and below every other node on both; `None` means the chains never
      meet. */
  method CommonNode(t: DomTree, n1: nat, n2: nat) returns (r: Option<nat>)
    requires TreeOk(t) && n1 in t && n2 in t
    ensures r.Some? ==> && r.value in t && Common(t, n1, n2, r.value)
                        && forall x :: x in t && Common(t, n1, n2, x) ==> t[r.value].id <= t[x].id
    ensures r.None? <==> forall x :: !Common(t, n1, n2, x)
  {
    var a, b := n1, n2;
    while true
      invariant a in t && b in t
      invariant OnChain(t, n1, a) && OnChain(t, n2, b)
      invariant forall x :: Common(t, n1, n2, x) ==> OnChain(t, a, x) && OnChain(t, b, x)
      decreases |Above(t, a)| + |Above(t, b)|
    {
      if a == b {
        assert Common(t, n1, n2, a);
        forall x | x in t && Common(t, n1, n2, x) ensures t[a].id <= t[x].id {
          OnChainAbove(t, a, x);
        }
        return Some(a);
      }
      if t[a].id < t[b].id {
        if t[a].immDom.None? {
          NoneEndsChain(t, n1, n2, a, b);
          return None;
        }
        AboveShrinks(t, a);
        LiftKeeps(t, n1, n2, a, b);
        a := t[a].immDom.value;
        ChainStep(t, n1, a);
      } else {
        assert t[a].id != t[b].id;
        if t[b].immDom.None? {
          NoneEndsChain(t, n2, n1, b, a);
          return None;
        }
        AboveShrinks(t, b);
        LiftKeeps(t, n2, n1, b, a);
        b := t[b].immDom.value;
        ChainStep(t, n2, b);
      }
    }
  }

  lemma {:induction false} ChainStep(t: DomTree, n: nat, a: nat)
    requires TreeOk(t) && n in t && a in t
    requires exists p :: p in t && OnChain(t, n, p) && t[p].immDom == Some(a)
    ensures OnChain(t, n, a)
  {
    var p :| p in t && OnChain(t, n, p) && t[p].immDom == Some(a);
    ChainTrans(t, n, p, a);
  }

  lemma {:induction false} ChainTrans(t: DomTree, n: nat, p: nat, x: nat)
    requires TreeOk(t) && n in t && p in t
    requires OnChain(t, n, p) && OnChain(t, p, x)
    ensures OnChain(t, n, x)
    decreases |Above(t, n)|
  {
    if n != p {
      AboveShrinks(t, n);
      ChainTrans(t, t[n].immDom.value, p, x);
    }
  }

  /** Lifting the node with the smaller id loses no common node: that node
      cannot be on the other chain, whose ids are all larger. */
  lemma LiftKeeps(t: DomTree, n1: nat, n2: nat, a: nat, b: nat)
    requires TreeOk(t) && n1 in t && n2 in t && a in t && b in t
    requires t[a].id < t[b].id && t[a].immDom.Some?
    requires forall x :: Common(t, n1, n2, x) ==> OnChain(t, a, x) && OnChain(t, b, x)
    ensures forall x :: Common(t, n1, n2, x) ==> OnChain(t, t[a].immDom.value, x)
  {
    forall x | Common(t, n1, n2, x) ensures OnChain(t, t[a].immDom.value, x) {
      OnChainAbove(t, b, x);
      assert x != a;
      AboveShrinks(t, a);
    }
  }

  /** When the node with the smaller id has no dominator, the chains share
      nothing. */
  lemma NoneEndsChain(t: DomTree, n1: nat, n2: nat, a: nat, b: nat)
    requires TreeOk(t) && n1 in t && n2 in t && a in t && b in t
    requires t[a].id < t[b].id && t[a].immDom.None?
    requires forall x :: Common(t, n1, n2, x) ==> OnChain(t, a, x) && OnChain(t, b, x)
    ensures forall x :: !Common(t, n1, n2, x) && !Common(t, n2, n1, x)
  {
    forall x ensures !Common(t, n1, n2, x) && !Common(t, n2, n1, x) {
      if Common(t, n1, n2, x) {
        OnChainAbove(t, b, x);
      }
    }
  }

  // ---------------------------------------------------------------------
  // get_dom_cand

  /** A 64-bit detection vector: bit `i` is set when pattern `i` detects the
      fault. */
  type PackedVal = bv64

  /** `w1 & w2 == w1`: every pattern detecting the first fault also
      detects the second. */
  predicate Covers(w1: PackedVal, w2: PackedVal) {
    w1 & w2 == w1
  }

  /** Per-fault data: how many detections have been seen, and which faults
      may be dominated by this one. */
  datatype FaultData = FaultData(detCount: nat, cands: seq<nat>)

  /** The fault data array and the scratch detection flags, both indexed by
      fault id. */
  datatype DomState = DomState(data: seq<FaultData>, detFlag: seq<PackedVal>)

  /** A detection list: fault ids paired with their detection vectors. */
  type DetList = seq<(nat, PackedVal)>

  predicate StateOk(st: DomState) {
    && |st.detFlag| == |st.data|
    && (forall f, k :: 0 <= f < |st.data| && 0 <= k < |st.data[f].cands| ==>
          st.data[f].cands[k] < |st.data|)
  }

  /** Every listed fault id is below `size`. */
  predicate IdsIn(det: DetList, size: nat) {
    forall i :: 0 <= i < |det| ==> det[i].0 < size
  }

  /** No fault is listed twice. */
  predicate DistinctIds(det: DetList) {
    forall j, k :: 0 <= j < k < |det| ==> det[j].0 != det[k].0
  }

  predicate DetOk(st: DomState, det: DetList) {
    forall i :: 0 <= i < |det| ==> det[i].0 < |st.data|
  }

  /** The first loop of `get_dom_cand`: copy each vector into `mDetFlag`. */
  function WriteFlags(flag: seq<PackedVal>, det: DetList): (r: seq<PackedVal>)
    requires forall i :: 0 <= i < |det| ==> det[i].0 < |flag|
    ensures |r| == |flag|
    ensures forall f :: 0 <= f < |flag| && (forall i :: 0 <= i < |det| ==> det[i].0 != f) ==> r[f] == flag[f]
    decreases |det|
  {
    if det == [] then flag
    else WriteFlags(flag, det[..|det| - 1])[det[|det| - 1].0 := det[|det| - 1].1]
  }

  /** The last loop of `get_dom_cand`: zero the flags of the listed faults. */
  function ClearFlags(flag: seq<PackedVal>, det: DetList): (r: seq<PackedVal>)
    requires forall i :: 0 <= i < |det| ==> det[i].0 < |flag|
    ensures |r| == |flag|
    ensures forall i :: 0 <= i < |det| ==> r[det[i].0] == 0
    ensures forall f :: 0 <= f < |flag| && (forall i :: 0 <= i < |det| ==> det[i].0 != f) ==> r[f] == flag[f]
    decreases |det|
  {
    if det == [] then flag
    else ClearFlags(flag, det[..|det| - 1])[det[|det| - 1].0 := 0]
  }

  /** On a first detection, the candidates of `det[i1]` are every other
      listed fault whose vector covers its own, in list order. */
  function FirstCands(det: DetList, i1: nat, n: nat): (r: seq<nat>)
    requires i1 < |det| && n <= |det|
    ensures |r| <= n
    decreases n
  {
    if n == 0 then []
    else FirstCands(det, i1, n - 1)
         + (if n - 1 != i1 && Covers(det[i1].1, det[n - 1].1) then [det[n - 1].0] else [])
  }

  lemma {:induction false} FirstCandsMembers(det: DetList, i1: nat, n: nat, f: nat)
    requires i1 < |det| && n <= |det|
    ensures f in FirstCands(det, i1, n) <==>
            exists i2 :: 0 <= i2 < n && i2 != i1 && det[i2].0 == f && Covers(det[i1].1, det[i2].1)
    decreases n
  {
    if n > 0 {
      FirstCandsMembers(det, i1, n - 1, f);
    }
  }

  /** On later detections a candidate survives when its current flag still
      covers the vector: the candidates of `cands` that do, in order. */
  function Surviving(cands: seq<nat>, flag: seq<PackedVal>, w1: PackedVal): (r: seq<nat>)
    ensures |r| <= |cands|
    ensures forall k :: 0 <= k < |r| ==> r[k] in cands
  {
    if cands == [] then []
    else
      var f2 := cands[|cands| - 1];
      Surviving(cands[..|cands| - 1], flag, w1) + (if f2 < |flag| && Covers(w1, flag[f2]) then [f2] else [])
  }

  lemma SurvivingSnoc(cands: seq<nat>, k: nat, flag: seq<PackedVal>, w1: PackedVal)
    requires k < |cands|
    ensures Surviving(cands[..k + 1], flag, w1) ==
            Surviving(cands[..k], flag, w1)
            + (if cands[k] < |flag| && Covers(w1, flag[cands[k]]) then [cands[k]] else [])
  {
    assert cands[..k + 1][..k] == cands[..k];
  }

  /** The in-place `wpos`/`rpos` compaction of a candidate list.  Returns
      the surviving candidates in order and how many were dropped. */
  method Compact(cands: seq<nat>, flag: seq<PackedVal>, w1: PackedVal)
    returns (kept: seq<nat>, dropped: nat)
    ensures kept == Surviving(cands, flag, w1)
    ensures dropped == |cands| - |kept|
  {
    var dst := cands;
    var wpos := 0;
    var rpos := 0;
    while rpos < |cands|
      invariant 0 <= wpos <= rpos <= |cands| && |dst| == |cands|
      invariant dst[..wpos] == Surviving(cands[..rpos], flag, w1)
      invariant dst[rpos..] == cands[rpos..]
    {
      var f2 := dst[rpos];
      assert f2 == cands[rpos];
      SurvivingSnoc(cands, rpos, flag, w1);
      if f2 < |flag| && Covers(w1, flag[f2]) {
        var dst' := if wpos < rpos then dst[wpos := f2] else dst;
        KeepStep(cands, dst, dst', wpos, rpos);
        dst := dst';
        wpos := wpos + 1;
      } else {
        SkipStep(cands, dst, rpos);
      }
      rpos := rpos + 1;
    }
    assert cands[..rpos] == cands;
    kept := dst[..wpos];
    dropped := |cands| - wpos;
  }

  /** One step of an in-place compaction that keeps `s[rpos]` by writing
      it at `wpos`. */
  lemma KeepStep<T>(s: seq<T>, dst: seq<T>, dst': seq<T>, wpos: nat, rpos: nat)
    requires wpos <= rpos < |dst| == |s| && dst[rpos..] == s[rpos..]
    requires dst' == if wpos < rpos then dst[wpos := s[rpos]] else dst
    ensures |dst'| == |s|
    ensures dst'[..wpos + 1] == dst[..wpos] + [s[rpos]]
    ensures dst'[rpos + 1..] == s[rpos + 1..]
  {
    assert dst[rpos] == s[rpos];
    assert dst[rpos + 1..] == s[rpos + 1..];
  }

  /** One step that drops `s[rpos]`. */
  lemma SkipStep<T>(s: seq<T>, dst: seq<T>, rpos: nat)
    requires rpos < |dst| == |s| && dst[rpos..] == s[rpos..]
    ensures dst[rpos + 1..] == s[rpos + 1..]
  {
    assert dst[rpos + 1..] == dst[rpos..][1..];
  }

  /** One fault of the list after it has been seen: the new candidate list
      (replaced on a first detection, narrowed otherwise), the detection
      count grown by the number of detecting patterns, and how many
      candidates were dropped. */
  function Visit(fd: FaultData, det: DetList, i1: nat, flag: seq<PackedVal>): (r: (FaultData, nat))
    requires i1 < |det|
    ensures r.0.detCount == fd.detCount + PopCount(det[i1].1)
    ensures fd.detCount == 0 ==> r.0.cands == FirstCands(det, i1, |det|) && r.1 == 0
    ensures fd.detCount != 0 ==> r.0.cands == Surviving(fd.cands, flag, det[i1].1)
                                 && r.1 + |r.0.cands| == |fd.cands|
  {
    var w1 := det[i1].1;
    if fd.detCount == 0 then
      (FaultData(fd.detCount + PopCount(w1), FirstCands(det, i1, |det|)), 0)
    else
      var kept := Surviving(fd.cands, flag, w1);
      (FaultData(fd.detCount + PopCount(w1), kept), |fd.cands| - |kept|)
  }

  /** The middle loop of `get_dom_cand` over the first `n` entries. */
  function VisitAll(data: seq<FaultData>, det: DetList, flag: seq<PackedVal>, n: nat): (r: (seq<FaultData>, nat))
    requires n <= |det| && IdsIn(det, |data|)
    ensures |r.0| == |data|
    decreases n
  {
    if n == 0 then (data, 0)
    else
      var prev := VisitAll(data, det, flag, n - 1);
      var f1 := det[n - 1].0;
      var v := Visit(prev.0[f1], det, n - 1, flag);
      (prev.0[f1 := v.0], prev.1 + v.1)
  }

  /** `get_dom_cand(det_list)`: the new state and the number of candidates
      dropped. */
  function GetDomCand(st: DomState, det: DetList): (r: (DomState, nat))
    requires StateOk(st) && DetOk(st, det)
    ensures |r.0.data| == |st.data| && |r.0.detFlag| == |st.detFlag|
    ensures forall i :: 0 <= i < |det| ==> r.0.detFlag[det[i].0] == 0
    ensures forall f :: 0 <= f < |st.data| && (forall i :: 0 <= i < |det| ==> det[i].0 != f) ==>
              r.0.detFlag[f] == st.detFlag[f]
  {
    var flag := WriteFlags(st.detFlag, det);
    var v := VisitAll(st.data, det, flag, |det|);
    (DomState(v.0, ClearFlags(flag, det)), v.1)
  }

  /** With distinct fault ids in the list, the flags hold each listed
      fault's own vector while the candidates are narrowed. */
  lemma {:induction false} WriteFlagsListed(flag: seq<PackedVal>, det: DetList, i: nat)
    requires forall k :: 0 <= k < |det| ==> det[k].0 < |flag|
    requires DistinctIds(det)
    requires i < |det|
    ensures WriteFlags(flag, det)[det[i].0] == det[i].1
    decreases |det|
  {
    if i < |det| - 1 {
      WriteFlagsListed(flag, det[..|det| - 1], i);
    }
  }

  /** A fault missing from the first `n` entries keeps its data. */
  lemma {:induction false} VisitAllFrame(data: seq<FaultData>, det: DetList, flag: seq<PackedVal>, n: nat, f: nat)
    requires n <= |det| && IdsIn(det, |data|)
    requires f < |data| && forall i :: 0 <= i < n ==> det[i].0 != f
    ensures VisitAll(data, det, flag, n).0[f] == data[f]
    decreases n
  {
    if n > 0 {
      VisitAllFrame(data, det, flag, n - 1, f);
      var prev := VisitAll(data, det, flag, n - 1).0;
      var f1 := det[n - 1].0;
      assert f1 != f;
      assert VisitAll(data, det, flag, n).0 == prev[f1 := Visit(prev[f1], det, n - 1, flag).0];
    }
  }

  /** One more step of the loop updates the `n`-th fault alone. */
  lemma VisitAllStep(data: seq<FaultData>, det: DetList, flag: seq<PackedVal>, n: nat)
    requires 0 < n <= |det| && IdsIn(det, |data|)
    ensures var prev := VisitAll(data, det, flag, n - 1);
            var f1 := det[n - 1].0;
            VisitAll(data, det, flag, n).0 == prev.0[f1 := Visit(prev.0[f1], det, n - 1, flag).0]
  {
  }

  /** With distinct fault ids, each of the first `n` faults holds the result
      of visiting its data as it was before the loop. */
  lemma {:induction false} VisitAllListed(data: seq<FaultData>, det: DetList, flag: seq<PackedVal>, n: nat, i: nat)
    requires n <= |det| && IdsIn(det, |data|)
    requires DistinctIds(det)
    requires i < n
    ensures VisitAll(data, det, flag, n).0[det[i].0] == Visit(data[det[i].0], det, i, flag).0
    decreases n
  {
    if i == n - 1 {
      VisitAllLast(data, det, flag, n);
    } else {
      VisitAllListed(data, det, flag, n - 1, i);
      VisitAllEarlier(data, det, flag, n, i);
    }
  }

  /** The fault visited last was untouched before its visit. */
  lemma VisitAllLast(data: seq<FaultData>, det: DetList, flag: seq<PackedVal>, n: nat)
    requires 0 < n <= |det| && IdsIn(det, |data|)
    requires DistinctIds(det)
    ensures VisitAll(data, det, flag, n).0[det[n - 1].0] == Visit(data[det[n - 1].0], det, n - 1, flag).0
  {
    VisitAllStep(data, det, flag, n);
    VisitAllFrame(data, det, flag, n - 1, det[n - 1].0);
  }

  /** A fault visited earlier keeps the result of its visit through a
      later step. */
  lemma VisitAllEarlier(data: seq<FaultData>, det: DetList, flag: seq<PackedVal>, n: nat, i: nat)
    requires 0 < n <= |det| && IdsIn(det, |data|)
    requires DistinctIds(det)
    requires i < n - 1
    requires VisitAll(data, det, flag, n - 1).0[det[i].0] == Visit(data[det[i].0], det, i, flag).0
    ensures VisitAll(data, det, flag, n).0[det[i].0] == Visit(data[det[i].0], det, i, flag).0
  {
    VisitAllStep(data, det, flag, n);
    assert det[i].0 != det[n - 1].0;
  }

  /** With distinct fault ids, the count is the sum of what each visit
      dropped from the fault's data as it was before the loop. */
  lemma {:induction false} VisitAllDropped(data: seq<FaultData>, det: DetList, flag: seq<PackedVal>, n: nat)
    requires n <= |det| && IdsIn(det, |data|)
    requires DistinctIds(det)
    ensures VisitAll(data, det, flag, n).1 == DroppedSum(data, det, flag, n)
    decreases n
  {
    if n > 0 {
      VisitAllDropped(data, det, flag, n - 1);
      var f1 := det[n - 1].0;
      VisitAllFrame(data, det, flag, n - 1, f1);
      var prev := VisitAll(data, det, flag, n - 1);
      assert prev.0[f1] == data[f1];
      assert VisitAll(data, det, flag, n).1 == prev.1 + Visit(prev.0[f1], det, n - 1, flag).1;
    }
  }

  function DroppedSum(data: seq<FaultData>, det: DetList, flag: seq<PackedVal>, n: nat): nat
    requires n <= |det| && IdsIn(det, |data|)
    decreases n
  {
    if n == 0 then 0
    else DroppedSum(data, det, flag, n - 1) + Visit(data[det[n - 1].0], det, n - 1, flag).1
  }

  /** The effect of `get_dom_cand` on one listed fault, for a list of
      distinct faults: a first detection installs the covering faults, a
      later one keeps the candidates whose vector in this round covers the
      fault's own, and the detection count grows by the number of
      detecting patterns. */
  lemma {:induction false} GetDomCandFault(st: DomState, det: DetList, i1: nat)
    requires StateOk(st) && DetOk(st, det)
    requires DistinctIds(det)
    requires i1 < |det|
    ensures var fd := st.data[det[i1].0];
            var fd' := GetDomCand(st, det).0.data[det[i1].0];
            && fd'.detCount == fd.detCount + PopCount(det[i1].1)
            && (fd.detCount == 0 ==>
                  forall f :: f in fd'.cands <==>
                    exists i2 :: 0 <= i2 < |det| && i2 != i1 && det[i2].0 == f && Covers(det[i1].1, det[i2].1))
            && (fd.detCount != 0 ==>
                  fd'.cands == Surviving(fd.cands, WriteFlags(st.detFlag, det), det[i1].1))
  {
    var flag := WriteFlags(st.detFlag, det);
    var v := VisitAll(st.data, det, flag, |det|);
    assert GetDomCand(st, det).0.data == v.0;
    VisitAllListed(st.data, det, flag, |det|, i1);
    var fd := st.data[det[i1].0];
    assert v.0[det[i1].0] == Visit(fd, det, i1, flag).0;
    if fd.detCount == 0 {
      forall f ensures f in FirstCands(det, i1, |det|) <==>
          exists i2 :: 0 <= i2 < |det| && i2 != i1 && det[i2].0 == f && Covers(det[i1].1, det[i2].1)
      {
        FirstCandsMembers(det, i1, |det|, f);
      }
    }
  }

  /** The returned count is the number of candidates dropped over all
      later detections; a first detection drops none. */
  lemma {:induction false} GetDomCandCount(st: DomState, det: DetList)
    requires StateOk(st) && DetOk(st, det)
    requires DistinctIds(det)
    ensures GetDomCand(st, det).1 == DroppedSum(st.data, det, WriteFlags(st.detFlag, det), |det|)
  {
    VisitAllDropped(st.data, det, WriteFlags(st.detFlag, det), |det|);
  }

  /** Faults missing from the list keep their data. */
  lemma {:induction false} GetDomCandFrame(st: DomState, det: DetList, f: nat)
    requires StateOk(st) && DetOk(st, det)
    requires DistinctIds(det)
    requires f < |st.data| && forall i :: 0 <= i < |det| ==> det[i].0 != f
    ensures GetDomCand(st, det).0.data[f] == st.data[f]
  {
    VisitAllFrame(st.data, det, WriteFlags(st.detFlag, det), |det|, f);
  }

  /** The flags start and end all zero, so a later round reads only the
      vectors of its own list. */
  lemma GetDomCandClearsFlags(st: DomState, det: DetList)
    requires StateOk(st) && DetOk(st, det)
    requires forall f :: 0 <= f < |st.detFlag| ==> st.detFlag[f] == 0
    ensures forall f :: 0 <= f < |st.detFlag| ==> GetDomCand(st, det).0.detFlag[f] == 0
  {
  }

  // ---------------------------------------------------------------------
  // make_cand_list, first pass

  /** Drop the candidates whose input list does not intersect the fault's
      own: structurally independent faults cannot dominate each other.
      Every input list is non-empty and ascending, as `check_intersect`
      needs. */
  method PruneIndependent(cands: seq<nat>, own: seq<nat>, inputs: seq<seq<nat>>)
    returns (kept: seq<nat>)
    requires |own| > 0 && Ascending(own)
    requires forall k :: 0 <= k < |cands| ==> cands[k] < |inputs|
    requires forall f :: 0 <= f < |inputs| ==> |inputs[f]| > 0 && Ascending(inputs[f])
    ensures kept == Filter(cands, Dependent(own, inputs))
  {
    var dst := cands;
    var wpos := 0;
    var rpos := 0;
    while rpos < |cands|
      invariant 0 <= wpos <= rpos <= |cands| && |dst| == |cands|
      invariant dst[..wpos] == Filter(cands[..rpos], Dependent(own, inputs))
      invariant dst[rpos..] == cands[rpos..]
    {
      var f2 := dst[rpos];
      assert f2 == cands[rpos];
      FilterSnoc(cands, rpos, Dependent(own, inputs));
      var meet := CheckIntersect(own, inputs[f2]);
      if meet {
        var dst' := if wpos < rpos then dst[wpos := f2] else dst;
        KeepStep(cands, dst, dst', wpos, rpos);
        dst := dst';
        wpos := wpos + 1;
      } else {
        SkipStep(cands, dst, rpos);
      }
      rpos := rpos + 1;
    }
    assert cands[..rpos] == cands;
    kept := dst[..wpos];
  }

  function Dependent(own: seq<nat>, inputs: seq<seq<nat>>): nat -> bool {
    (f2: nat) => f2 < |inputs| && Intersects(own, inputs[f2])
  }
}
