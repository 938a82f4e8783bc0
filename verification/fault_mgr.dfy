/** The single stuck-at fault bookkeeping of `FaultMgr` (satpg, old base
    library): fault registration with equivalence classes, the structural
    equivalences of simple gates, the status-driven compaction of the list
    of remaining faults, and the split of representatives by reachability
    from the outputs. */
module FaultMgr {
  import opened Base
  import SatCnf

  type Bit = x: nat | x < 2

  /** A fault site: the node, whether it sits on the output or on input
      `pos`, and the stuck value.  The source pre-creates one fault object
      per site in its node arrays; a site names that object. */
  datatype Site = Site(node: nat, isOutput: bool, pos: nat, val: Bit)

  /** The fault status; a fresh equivalence class starts undetected. */
  datatype Status = Undetected | Detected | Untestable | Aborted

  /** What `add_fault` writes into a fault object: its id and its shared
      equivalence-class record. */
  datatype FaultRec = FaultRec(id: nat, info: nat)

  /** `Finfo`: the status shared by an equivalence class and its members. */
  datatype Finfo = Finfo(status: Status, eqFaults: seq<Site>)

  datatype Mgr = Mgr(
    recs: map<Site, FaultRec>,
    infos: seq<Finfo>,
    allList: seq<Site>,
    allRepList: seq<Site>,
    detList: seq<Site>,
    remainList: seq<Site>,
    untestList: seq<Site>,
    changed: bool)

  /** Every registered fault points at an existing class record. */
  predicate Inv(m: Mgr) {
    forall s {:trigger m.recs[s]} :: s in m.recs ==> m.recs[s].info < |m.infos|
  }

  function StatusOf(m: Mgr, s: Site): Status
    requires Inv(m) && s in m.recs
  {
    m.infos[m.recs[s].info].status
  }

  // ---------------------------------------------------------------------
  // the fault arrays of a node

  /** `Fnode`: the two output faults and the `2 * ni` input faults of a
      node, input fault `(j, v)` stored at index `j * 2 + v`. */
  datatype Fnode = Fnode(ofault: seq<Site>, ifaults: seq<Site>)

  /** The arrays `set_ssa_fault` builds for a node with `ni` inputs. */
  function MakeFnode(node: nat, ni: nat): (r: Fnode)
    ensures |r.ofault| == 2 && |r.ifaults| == 2 * ni
  {
    Fnode([Site(node, true, 0, 0), Site(node, true, 0, 1)],
          seq(2 * ni, k requires 0 <= k < 2 * ni => Site(node, false, k / 2, k % 2)))
  }

  /** `find_input_fault(node, pos, val)`. */
  function FindInputFault(fn: Fnode, pos: nat, val: Bit): Site
    requires pos * 2 + val < |fn.ifaults|
  {
    fn.ifaults[pos * 2 + val]
  }

  /** `find_output_fault(node, val)`. */
  function FindOutputFault(fn: Fnode, val: Bit): Site
    requires |fn.ofault| == 2
  {
    fn.ofault[val]
  }

  /** The slot `pos * 2 + val` finds exactly the fault created for that
      input and value: no two input faults share a slot. */
  lemma FindInputFaultExact(node: nat, ni: nat, pos: nat, val: Bit)
    requires pos < ni
    ensures FindInputFault(MakeFnode(node, ni), pos, val) == Site(node, false, pos, val)
    ensures FindOutputFault(MakeFnode(node, ni), val) == Site(node, true, 0, val)
  {
    var k := pos * 2 + val;
    assert k / 2 == pos && k % 2 == val;
  }

  /** `find_alternative_fault(f)`: the fault at the same site with the
      other stuck value, looked up in the node's arrays. */
  function FindAlternative(fn: Fnode, f: Site): (r: Site)
    requires |fn.ofault| == 2
    requires !f.isOutput ==> f.pos * 2 + 1 < |fn.ifaults|
  {
    var fval: Bit := 1 - f.val;
    if !f.isOutput then fn.ifaults[f.pos * 2 + fval] else fn.ofault[fval]
  }

  /** On the arrays of the fault's own node, the alternative is the same
      site with the value flipped, and flipping twice returns the fault. */
  lemma FindAlternativeFlips(ni: nat, f: Site)
    requires f.isOutput ==> f.pos == 0
    requires !f.isOutput ==> f.pos < ni
    ensures var fn := MakeFnode(f.node, ni);
            && FindAlternative(fn, f) == f.(val := 1 - f.val)
            && FindAlternative(fn, FindAlternative(fn, f)) == f
  {
    var fn := MakeFnode(f.node, ni);
    var k := f.pos * 2 + (1 - f.val);
    assert k / 2 == f.pos && k % 2 == 1 - f.val;
    var k' := f.pos * 2 + f.val;
    assert k' / 2 == f.pos && k' % 2 == f.val;
  }

  // ---------------------------------------------------------------------
  // add_fault, set_status

  /** `add_fault(node, is_output, pos, val, rep)`: number the fault by the
      size of the list of all faults, then join the class of `rep`, or
      open a new class and become its representative. */
  function AddFault(m: Mgr, f: Site, rep: Option<Site>): (r: Mgr)
    requires Inv(m)
    requires rep.Some? ==> rep.value in m.recs
    ensures Inv(r)
  {
    var info := if rep.Some? then m.recs[rep.value].info else |m.infos|;
    var infos := if rep.Some? then m.infos else m.infos + [Finfo(Undetected, [])];
    var infos' := infos[info := infos[info].(eqFaults := infos[info].eqFaults + [f])];
    m.(recs := m.recs[f := FaultRec(|m.allList|, info)],
       infos := infos',
       allList := m.allList + [f],
       allRepList := if rep.Some? then m.allRepList else m.allRepList + [f],
       changed := true)
  }

  /** What `add_fault` promises: the new id is the prior count, a fault
      with a representative shares its class, a fault without one heads a
      fresh undetected class and joins the representatives; either way it
      is appended to its class; no other fault is touched. */
  lemma AddFaultEffect(m: Mgr, f: Site, rep: Option<Site>)
    requires Inv(m)
    requires rep.Some? ==> rep.value in m.recs
    ensures var r := AddFault(m, f, rep);
            && f in r.recs && r.recs[f].id == |m.allList| && r.allList == m.allList + [f]
            && (rep.Some? ==> r.recs[f].info == m.recs[rep.value].info && r.allRepList == m.allRepList
                              && |r.infos| == |m.infos|)
            && (rep.None? ==> r.recs[f].info == |m.infos| && r.allRepList == m.allRepList + [f]
                              && |r.infos| == |m.infos| + 1 && r.infos[|m.infos|] == Finfo(Undetected, [f]))
            && r.infos[r.recs[f].info].eqFaults == (if rep.Some? then m.infos[m.recs[rep.value].info].eqFaults else []) + [f]
            && (forall s :: s in m.recs && s != f ==> s in r.recs && r.recs[s] == m.recs[s])
            && (forall i :: 0 <= i < |m.infos| && i != r.recs[f].info ==> r.infos[i] == m.infos[i])
            && (forall i :: 0 <= i < |m.infos| ==> r.infos[i].status == m.infos[i].status)
            && r.changed
  {
  }

  /** `set_status(fault, stat)`: write the class record. */
  function SetStatus(m: Mgr, f: Site, st: Status): (r: Mgr)
    requires Inv(m) && f in m.recs
    ensures Inv(r)
  {
    var i := m.recs[f].info;
    m.(infos := m.infos[i := m.infos[i].(status := st)], changed := true)
  }

  /** Every fault of the class reports the new status; faults of other
      classes keep theirs. */
  lemma SetStatusShared(m: Mgr, f: Site, st: Status, g: Site)
    requires Inv(m) && f in m.recs && g in m.recs
    ensures var r := SetStatus(m, f, st);
            && r.changed
            && (m.recs[g].info == m.recs[f].info ==> StatusOf(r, g) == st)
            && (m.recs[g].info != m.recs[f].info ==> StatusOf(r, g) == StatusOf(m, g))
  {
  }

  // ---------------------------------------------------------------------
  // update

  /** Where `update` files a remaining fault by its status. */
  datatype Bucket = Kept | Det | Untest

  function BucketOf(s: Status): Bucket {
    match s
    case Undetected => Kept
    case Aborted => Kept
    case Detected => Det
    case Untestable => Untest
  }

  /** An aborted fault goes back to undetected. */
  function Settle(fi: Finfo): Finfo {
    if fi.status == Aborted then fi.(status := Undetected) else fi
  }

  function Infos(m: Mgr, fs: seq<Site>): set<nat>
    requires forall k :: 0 <= k < |fs| ==> fs[k] in m.recs
  {
    set k | 0 <= k < |fs| :: m.recs[fs[k]].info
  }

  /** The faults of `fs` whose status files them in bucket `b`, in their
      order. */
  function Pick(m: Mgr, fs: seq<Site>, b: Bucket): (r: seq<Site>)
    requires Inv(m) && forall k :: 0 <= k < |fs| ==> fs[k] in m.recs
    ensures |r| <= |fs|
    ensures forall x :: x in r <==> x in fs && x in m.recs && BucketOf(StatusOf(m, x)) == b
  {
    if fs == [] then []
    else
      var last := fs[|fs| - 1];
      Pick(m, fs[..|fs| - 1], b) + (if BucketOf(StatusOf(m, last)) == b then [last] else [])
  }

  lemma PickSnoc(m: Mgr, fs: seq<Site>, k: nat, b: Bucket)
    requires Inv(m) && forall i :: 0 <= i < |fs| ==> fs[i] in m.recs
    requires k < |fs|
    ensures Pick(m, fs[..k + 1], b) == Pick(m, fs[..k], b) + (if BucketOf(StatusOf(m, fs[k])) == b then [fs[k]] else [])
  {
    assert fs[..k + 1][..k] == fs[..k];
  }

  predicate RemainOk(m: Mgr) {
    Inv(m) && forall k :: 0 <= k < |m.remainList| ==> m.remainList[k] in m.recs
  }

  /** The scan of `update` after `rpos` faults: `wpos` of them kept in
      place, the rest appended to the detected or untestable list, and the
      classes of the aborted ones settled. */
  predicate ScanInv(m: Mgr, cur: Mgr, remain: seq<Site>, wpos: nat, rpos: nat)
    requires RemainOk(m)
  {
    && ScanFrame(m, cur, rpos)
    && ScanRemain(m, remain, wpos, rpos)
    && ScanLists(m, cur, rpos)
    && ScanInfos(m, cur, rpos)
  }

  predicate ScanFrame(m: Mgr, cur: Mgr, rpos: nat) {
    && rpos <= |m.remainList|
    && Inv(cur) && cur.recs == m.recs && |cur.infos| == |m.infos|
    && cur.allList == m.allList && cur.allRepList == m.allRepList
  }

  /** The kept faults are compacted to the front; the unread part is
      untouched. */
  predicate ScanRemain(m: Mgr, remain: seq<Site>, wpos: nat, rpos: nat)
    requires RemainOk(m)
  {
    && wpos <= rpos <= |m.remainList| && |remain| == |m.remainList|
    && remain[..wpos] == Pick(m, m.remainList[..rpos], Kept)
    && remain[rpos..] == m.remainList[rpos..]
  }

  predicate ScanLists(m: Mgr, cur: Mgr, rpos: nat)
    requires RemainOk(m)
  {
    && rpos <= |m.remainList|
    && cur.detList == m.detList + Pick(m, m.remainList[..rpos], Det)
    && cur.untestList == m.untestList + Pick(m, m.remainList[..rpos], Untest)
  }

  /** The classes met so far are settled; the others are untouched. */
  predicate ScanInfos(m: Mgr, cur: Mgr, rpos: nat)
    requires RemainOk(m)
  {
    && rpos <= |m.remainList| && |cur.infos| == |m.infos|
    && forall i :: 0 <= i < |m.infos| ==>
         cur.infos[i] == if i in Infos(m, m.remainList[..rpos]) then Settle(m.infos[i]) else m.infos[i]
  }

  /** `update()`: when anything changed, scan the remaining faults,
      keeping the undetected and aborted ones in order (the aborted ones
      become undetected) and moving the detected and untestable ones to
      their lists; then clear the change flag.  Otherwise nothing
      happens. */
  method Update(m: Mgr) returns (r: Mgr)
    requires RemainOk(m)
    ensures !m.changed ==> r == m
    ensures m.changed ==>
              && r.recs == m.recs && r.allList == m.allList && r.allRepList == m.allRepList
              && r.remainList == Pick(m, m.remainList, Kept)
              && r.detList == m.detList + Pick(m, m.remainList, Det)
              && r.untestList == m.untestList + Pick(m, m.remainList, Untest)
              && |r.infos| == |m.infos|
              && (forall i :: 0 <= i < |m.infos| ==>
                    r.infos[i] == if i in Infos(m, m.remainList) then Settle(m.infos[i]) else m.infos[i])
              && !r.changed
  {
    if !m.changed {
      return m;
    }
    var remain := m.remainList;
    var cur := m;
    var wpos: nat := 0;
    var rpos: nat := 0;
    assert Infos(m, m.remainList[..0]) == {};
    while rpos < |m.remainList|
      invariant ScanInv(m, cur, remain, wpos, rpos)
      decreases |m.remainList| - rpos
    {
      cur, remain, wpos := ScanOne(m, cur, remain, wpos, rpos);
      rpos := rpos + 1;
    }
    assert m.remainList[..rpos] == m.remainList;
    r := cur.(remainList := remain[..wpos], changed := false);
  }

  /** One iteration of the scan. */
  method ScanOne(m: Mgr, cur: Mgr, remain: seq<Site>, wpos: nat, rpos: nat)
    returns (cur': Mgr, remain': seq<Site>, wpos': nat)
    requires RemainOk(m) && rpos < |m.remainList|
    requires ScanInv(m, cur, remain, wpos, rpos)
    ensures ScanInv(m, cur', remain', wpos', rpos + 1)
  {
    var f := remain[rpos];
    assert f == m.remainList[rpos];
    var st := StatusOf(cur, f);
    if st == Detected || st == Untestable {
      ScanMove(m, cur, remain, wpos, rpos);
      if st == Detected {
        cur' := cur.(detList := cur.detList + [f]);
      } else {
        cur' := cur.(untestList := cur.untestList + [f]);
      }
      remain', wpos' := remain, wpos;
    } else {
      ScanKeep(m, cur, remain, wpos, rpos);
      cur' := if st == Aborted then SetStatus(cur, f, Undetected) else cur;
      remain' := if wpos != rpos then remain[wpos := f] else remain;
      wpos' := wpos + 1;
    }
  }

  /** A detected or untestable fault leaves the remaining list for its
      own list. */
  lemma ScanMove(m: Mgr, cur: Mgr, remain: seq<Site>, wpos: nat, rpos: nat)
    requires RemainOk(m) && rpos < |m.remainList|
    requires ScanInv(m, cur, remain, wpos, rpos)
    requires StatusOf(cur, m.remainList[rpos]) in {Detected, Untestable}
    ensures var f := m.remainList[rpos];
            var cur' := if StatusOf(cur, f) == Detected then cur.(detList := cur.detList + [f])
                        else cur.(untestList := cur.untestList + [f]);
            ScanInv(m, cur', remain, wpos, rpos + 1)
  {
    var f := m.remainList[rpos];
    var cur' := if StatusOf(cur, f) == Detected then cur.(detList := cur.detList + [f])
                else cur.(untestList := cur.untestList + [f]);
    UpdateStep(m, cur, rpos);
    RemainSkip(m, remain, wpos, rpos);
    ScanInfosSame(m, cur, rpos);
    ListsStep(m, cur, cur', rpos);
    assert ScanFrame(m, cur', rpos + 1);
    assert ScanInfos(m, cur', rpos + 1);
  }

  /** An undetected or aborted fault stays, compacted to the front; an
      aborted one becomes undetected. */
  lemma ScanKeep(m: Mgr, cur: Mgr, remain: seq<Site>, wpos: nat, rpos: nat)
    requires RemainOk(m) && rpos < |m.remainList|
    requires ScanInv(m, cur, remain, wpos, rpos)
    requires StatusOf(cur, m.remainList[rpos]) in {Undetected, Aborted}
    ensures var f := m.remainList[rpos];
            var cur' := if StatusOf(cur, f) == Aborted then SetStatus(cur, f, Undetected) else cur;
            ScanInv(m, cur', if wpos != rpos then remain[wpos := f] else remain, wpos + 1, rpos + 1)
  {
    var f := m.remainList[rpos];
    var cur' := if StatusOf(cur, f) == Aborted then SetStatus(cur, f, Undetected) else cur;
    var remain' := if wpos != rpos then remain[wpos := f] else remain;
    UpdateStep(m, cur, rpos);
    if StatusOf(cur, f) == Aborted {
      ScanInfosAborted(m, cur, rpos);
    } else {
      ScanInfosSame(m, cur, rpos);
    }
    RemainKeep(m, remain, remain', wpos, rpos);
    ListsStep(m, cur, cur', rpos);
  }

  lemma RemainSkip(m: Mgr, remain: seq<Site>, wpos: nat, rpos: nat)
    requires RemainOk(m) && rpos < |m.remainList|
    requires ScanRemain(m, remain, wpos, rpos)
    requires BucketOf(StatusOf(m, m.remainList[rpos])) != Kept
    ensures ScanRemain(m, remain, wpos, rpos + 1)
  {
    PickSnoc(m, m.remainList, rpos, Kept);
    SkipAt(m.remainList, remain, rpos);
  }

  lemma RemainKeep(m: Mgr, remain: seq<Site>, remain': seq<Site>, wpos: nat, rpos: nat)
    requires RemainOk(m) && rpos < |m.remainList|
    requires ScanRemain(m, remain, wpos, rpos)
    requires BucketOf(StatusOf(m, m.remainList[rpos])) == Kept
    requires remain' == if wpos != rpos then remain[wpos := m.remainList[rpos]] else remain
    ensures ScanRemain(m, remain', wpos + 1, rpos + 1)
  {
    PickSnoc(m, m.remainList, rpos, Kept);
    KeepAt(m.remainList, remain, remain', wpos, rpos);
  }

  lemma ListsStep(m: Mgr, cur: Mgr, cur': Mgr, rpos: nat)
    requires RemainOk(m) && rpos < |m.remainList|
    requires ScanLists(m, cur, rpos)
    requires var b := BucketOf(StatusOf(m, m.remainList[rpos]));
             && cur'.detList == cur.detList + (if b == Det then [m.remainList[rpos]] else [])
             && cur'.untestList == cur.untestList + (if b == Untest then [m.remainList[rpos]] else [])
    ensures ScanLists(m, cur', rpos + 1)
  {
    var f := m.remainList[rpos];
    var b := BucketOf(StatusOf(m, f));
    PickSnoc(m, m.remainList, rpos, Det);
    PickSnoc(m, m.remainList, rpos, Untest);
    AppendAssoc(m.detList, Pick(m, m.remainList[..rpos], Det), if b == Det then [f] else []);
    AppendAssoc(m.untestList, Pick(m, m.remainList[..rpos], Untest), if b == Untest then [f] else []);
  }

  /** The class records after one more fault whose class needs no
      change. */
  lemma ScanInfosSame(m: Mgr, cur: Mgr, rpos: nat)
    requires RemainOk(m) && rpos < |m.remainList|
    requires ScanFrame(m, cur, rpos) && ScanInfos(m, cur, rpos)
    requires StatusOf(cur, m.remainList[rpos]) != Aborted
    ensures ScanInfos(m, cur, rpos + 1)
  {
    InfosSnoc(m, rpos);
  }

  /** The class records after one more aborted fault, whose class becomes
      undetected. */
  lemma ScanInfosAborted(m: Mgr, cur: Mgr, rpos: nat)
    requires RemainOk(m) && rpos < |m.remainList|
    requires ScanFrame(m, cur, rpos) && ScanInfos(m, cur, rpos)
    requires StatusOf(cur, m.remainList[rpos]) == Aborted
    ensures var r := SetStatus(cur, m.remainList[rpos], Undetected);
            ScanFrame(m, r, rpos + 1) && ScanInfos(m, r, rpos + 1)
  {
    InfosSnoc(m, rpos);
  }

  /** What the scan reads for `remainList[rpos]`: the original status,
      settled if an earlier fault of the same class was aborted. */
  lemma UpdateStep(m: Mgr, cur: Mgr, rpos: nat)
    requires RemainOk(m) && rpos < |m.remainList|
    requires ScanFrame(m, cur, rpos) && ScanInfos(m, cur, rpos)
    ensures var f := m.remainList[rpos];
            && (StatusOf(cur, f) == Detected <==> StatusOf(m, f) == Detected)
            && (StatusOf(cur, f) == Untestable <==> StatusOf(m, f) == Untestable)
            && BucketOf(StatusOf(cur, f)) == BucketOf(StatusOf(m, f))
  {
  }

  lemma InfosSnoc(m: Mgr, rpos: nat)
    requires RemainOk(m) && rpos < |m.remainList|
    ensures Infos(m, m.remainList[..rpos + 1]) == Infos(m, m.remainList[..rpos]) + {m.recs[m.remainList[rpos]].info}
  {
    var a := m.remainList[..rpos + 1];
    var b := m.remainList[..rpos];
    forall i | i in Infos(m, a) ensures i in Infos(m, b) + {m.recs[m.remainList[rpos]].info} {
      var k :| 0 <= k < |a| && m.recs[a[k]].info == i;
      if k < rpos {
        assert a[k] == b[k];
      }
    }
    forall i | i in Infos(m, b) ensures i in Infos(m, a) {
      var k :| 0 <= k < |b| && m.recs[b[k]].info == i;
      assert a[k] == b[k];
    }
    assert a[rpos] == m.remainList[rpos];
  }

  lemma KeepAt<T>(s: seq<T>, dst: seq<T>, dst': seq<T>, wpos: nat, rpos: nat)
    requires wpos <= rpos < |dst| == |s| && dst[rpos..] == s[rpos..]
    requires dst' == if wpos != rpos then dst[wpos := s[rpos]] else dst
    ensures |dst'| == |s|
    ensures dst'[..wpos + 1] == dst[..wpos] + [s[rpos]]
    ensures dst'[rpos + 1..] == s[rpos + 1..]
  {
    assert dst[rpos] == s[rpos];
    assert dst[rpos + 1..] == s[rpos + 1..];
  }

  lemma SkipAt<T>(s: seq<T>, dst: seq<T>, rpos: nat)
    requires rpos < |dst| == |s| && dst[rpos..] == s[rpos..]
    ensures dst[rpos + 1..] == s[rpos + 1..]
  {
    assert dst[rpos + 1..] == dst[rpos..][1..];
  }

  /** Each remaining fault ends in exactly one of the three lists. */
  lemma UpdatePartitions(m: Mgr, f: Site)
    requires RemainOk(m) && f in m.remainList
    ensures f in m.recs
    ensures (if f in Pick(m, m.remainList, Kept) then 1 else 0)
            + (if f in Pick(m, m.remainList, Det) then 1 else 0)
            + (if f in Pick(m, m.remainList, Untest) then 1 else 0) == 1
  {
    var k :| 0 <= k < |m.remainList| && m.remainList[k] == f;
  }

  // ---------------------------------------------------------------------
  // reg_faults

  /** The gate types `reg_faults` handles without an expression
      (`kTgGateCplx` is not part of this model; the rest are
      unreachable). */
  predicate Handled(t: SatCnf.GateType) {
    t.Buff? || t.Not? || t.And? || t.Nand? || t.Or? || t.Nor? || t.Xor?
  }

  /** The output value that an input stuck at `v` forces, if any: the
      input fault is then equivalent to that output fault. */
  function InputRep(t: SatCnf.GateType, v: Bit): Option<Bit>
    requires Handled(t)
  {
    match t
    case Buff => Some(v)
    case Not => Some(1 - v)
    case And => if v == 0 then Some(0) else None
    case Nand => if v == 0 then Some(1) else None
    case Or => if v == 1 then Some(1) else None
    case Nor => if v == 1 then Some(0) else None
    case Xor => None
  }

  function GateOut(t: SatCnf.GateType, vs: seq<bool>): bool
    requires Handled(t) && |vs| >= 1
  {
    SatCnf.NodeFun(SatCnf.NodeKind.GateNode(t), vs).value
  }

  /** Each equivalence is sound: with input `j` stuck at `v` the gate
      outputs the forced value whatever the other inputs are. */
  lemma InputRepSound(t: SatCnf.GateType, v: Bit, vs: seq<bool>, j: nat)
    requires Handled(t) && InputRep(t, v).Some? && j < |vs|
    requires (t.Buff? || t.Not?) ==> |vs| == 1
    ensures GateOut(t, vs[j := v == 1]) == (InputRep(t, v).value == 1)
  {
    var ws := vs[j := v == 1];
    assert ws[j] == (v == 1);
  }

  /** And only the sound ones are taken: for a gate of two or more inputs,
      an input value without an equivalence leaves the output free. */
  lemma InputRepComplete(t: SatCnf.GateType, v: Bit, n: nat, j: nat)
    requires Handled(t) && !(t.Buff? || t.Not?) && InputRep(t, v).None? && 2 <= n && j < n
    ensures exists vs: seq<bool>, ws: seq<bool> ::
              |vs| == n && |ws| == n && vs[j] == (v == 1) && ws[j] == (v == 1)
              && GateOut(t, vs) != GateOut(t, ws)
  {
    var o := if j == 0 then 1 else 0;
    var vs := seq(n, k => v == 1);
    var ws := vs[o := v != 1];
    assert ws[o] == (v != 1) && vs[o] == (v == 1);
    if t.Xor? {
      ParityFlip(vs, o);
    }
    assert GateOut(t, vs) != GateOut(t, ws);
  }

  lemma {:induction false} ParityFlip(vs: seq<bool>, o: nat)
    requires o < |vs|
    ensures Parity(vs[o := !vs[o]]) != Parity(vs)
  {
    CountFlip(vs, o, |vs|);
    assert vs[o := !vs[o]][..|vs|] == vs[o := !vs[o]];
    assert vs[..|vs|] == vs;
  }

  lemma {:induction false} CountFlip(vs: seq<bool>, o: nat, n: nat)
    requires o < |vs| && n <= |vs|
    ensures var ws := vs[o := !vs[o]];
            if n <= o then CountTrue(ws[..n]) == CountTrue(vs[..n])
            else CountTrue(ws[..n]) == CountTrue(vs[..n]) + (if vs[o] then -1 else 1)
    decreases n
  {
    var ws := vs[o := !vs[o]];
    if n > 0 {
      CountFlip(vs, o, n - 1);
      assert ws[..n][..n - 1] == ws[..n - 1];
      assert vs[..n][..n - 1] == vs[..n - 1];
    }
  }

  /** The representative of a node's output faults: with exactly one
      fanout, into a node that is not an output, the input fault of that
      fanout at the same value. */
  datatype Fanout = Fanout(to: nat, ipos: nat, toOutput: bool)

  function OutputRep(fanouts: seq<Fanout>, v: Bit): (r: Option<Site>)
    ensures r.Some? <==> |fanouts| == 1 && !fanouts[0].toOutput
    ensures r.Some? ==> r.value == Site(fanouts[0].to, false, fanouts[0].ipos, v)
  {
    if |fanouts| == 1 && !fanouts[0].toOutput then
      Some(Site(fanouts[0].to, false, fanouts[0].ipos, v))
    else None
  }

  /** The output fault an input stuck at `v` of a gate of type `t` is
      joined to, if any. */
  function InputRepSite(node: nat, t: SatCnf.GateType, v: Bit): Option<Site>
    requires Handled(t)
  {
    var o := InputRep(t, v);
    if o.Some? then Some(Site(node, true, 0, o.value)) else None
  }

  /** Input `k`'s fault stuck at `v` is registered, in the class of the
      output fault its gate type forces or heading a class of its own. */
  predicate InputPlaced(r: Mgr, node: nat, k: nat, v: Bit, o: Option<Bit>) {
    var f := Site(node, false, k, v);
    && f in r.recs
    && (o.Some? ==> Site(node, true, 0, o.value) in r.recs
                    && r.recs[f].info == r.recs[Site(node, true, 0, o.value)].info)
    && (o.None? ==> f in r.allRepList)
  }

  /** The two faults of input `j`, stuck at 0 and then at 1. */
  function AddInputPair(m: Mgr, node: nat, t: SatCnf.GateType, j: nat): (r: Mgr)
    requires Inv(m) && Handled(t)
    requires Site(node, true, 0, 0) in m.recs && Site(node, true, 0, 1) in m.recs
    ensures Inv(r)
    ensures Site(node, true, 0, 0) in r.recs && Site(node, true, 0, 1) in r.recs
  {
    var m1 := AddFault(m, Site(node, false, j, 0), InputRepSite(node, t, 0));
    AddFault(m1, Site(node, false, j, 1), InputRepSite(node, t, 1))
  }

  /** Adding input `j`'s faults joins each to the output fault its value
      forces, or makes it a representative, and touches no other fault. */
  lemma AddInputPairEffect(m: Mgr, node: nat, t: SatCnf.GateType, j: nat, v: Bit)
    requires Inv(m) && Handled(t)
    requires Site(node, true, 0, 0) in m.recs && Site(node, true, 0, 1) in m.recs
    ensures var r := AddInputPair(m, node, t, j);
            InputPlaced(r, node, j, v, InputRep(t, v))
            && (forall s :: s in m.recs && !(s.node == node && !s.isOutput && s.pos == j) ==> s in r.recs && r.recs[s] == m.recs[s])
            && (forall s :: s in m.allRepList ==> s in r.allRepList)
  {
    var m1 := AddFault(m, Site(node, false, j, 0), InputRepSite(node, t, 0));
    AddFaultEffect(m, Site(node, false, j, 0), InputRepSite(node, t, 0));
    AddFaultEffect(m1, Site(node, false, j, 1), InputRepSite(node, t, 1));
  }

  /** Every fault registered in `m`, other than input faults of `node`
      below `n`, keeps its record in `r`. */
  predicate KeptOutside(m: Mgr, r: Mgr, node: nat, n: nat) {
    forall s :: s in m.recs && !(s.node == node && !s.isOutput && s.pos < n) ==>
      s in r.recs && r.recs[s] == m.recs[s]
  }

  /** Adding the faults of another input leaves an input already placed
      as it was. */
  lemma PlacedKept(r: Mgr, r': Mgr, node: nat, i: nat, k: nat, v: Bit, o: Option<Bit>)
    requires InputPlaced(r, node, k, v, o) && k != i
    requires forall s :: s in r.recs && !(s.node == node && !s.isOutput && s.pos == i) ==>
               s in r'.recs && r'.recs[s] == r.recs[s]
    requires forall s :: s in r.allRepList ==> s in r'.allRepList
    ensures InputPlaced(r', node, k, v, o)
  {
    assert Site(node, false, k, v) in r.recs;
  }

  /** The input loop of `reg_faults`: the faults of inputs `0 .. ni-1`, in
      order.  Each input fault shares the class of the output fault its
      gate type forces, or heads a class of its own; every other fault
      keeps its record, and the representatives stay. */
  method AddInputFaults(m: Mgr, node: nat, t: SatCnf.GateType, ni: nat) returns (r: Mgr)
    requires Inv(m) && Handled(t)
    requires Site(node, true, 0, 0) in m.recs && Site(node, true, 0, 1) in m.recs
    ensures Inv(r)
    ensures Site(node, true, 0, 0) in r.recs && Site(node, true, 0, 1) in r.recs
    ensures forall k: nat, v: Bit :: k < ni ==> InputPlaced(r, node, k, v, InputRep(t, v))
    ensures KeptOutside(m, r, node, ni)
    ensures forall s :: s in m.allRepList ==> s in r.allRepList
  {
    r := m;
    var i := 0;
    while i < ni
      invariant i <= ni && Inv(r)
      invariant Site(node, true, 0, 0) in r.recs && Site(node, true, 0, 1) in r.recs
      invariant forall k: nat, v: Bit :: k < i ==> InputPlaced(r, node, k, v, InputRep(t, v))
      invariant KeptOutside(m, r, node, i)
      invariant forall s :: s in m.allRepList ==> s in r.allRepList
    {
      var r' := AddInputPair(r, node, t, i);
      AddInputPairEffect(r, node, t, i, 0);
      AddInputPairEffect(r, node, t, i, 1);
      forall k: nat, v: Bit | k < i
        ensures InputPlaced(r', node, k, v, InputRep(t, v))
      {
        PlacedKept(r, r', node, i, k, v, InputRep(t, v));
      }
      r := r';
      i := i + 1;
    }
  }

  /** The two output faults of a node: each joins the class of its
      fanout's input fault when there is one, and heads its own class
      otherwise. */
  method AddOutputFaults(m: Mgr, node: nat, fanouts: seq<Fanout>) returns (r: Mgr)
    requires Inv(m)
    requires forall v: Bit :: OutputRep(fanouts, v).Some? ==> OutputRep(fanouts, v).value in m.recs
    requires forall v: Bit :: OutputRep(fanouts, v).Some? ==> OutputRep(fanouts, v).value.node != node
    ensures Inv(r)
    ensures forall v: Bit :: Site(node, true, 0, v) in r.recs
    ensures forall v: Bit :: OutputRep(fanouts, v).Some? ==>
              OutputRep(fanouts, v).value in r.recs
              && r.recs[Site(node, true, 0, v)].info == r.recs[OutputRep(fanouts, v).value].info
    ensures forall v: Bit :: OutputRep(fanouts, v).None? ==> Site(node, true, 0, v) in r.allRepList
  {
    var o0, o1 := Site(node, true, 0, 0), Site(node, true, 0, 1);
    var m1 := AddFault(m, o0, OutputRep(fanouts, 0));
    AddFaultEffect(m, o0, OutputRep(fanouts, 0));
    r := AddFault(m1, o1, OutputRep(fanouts, 1));
    AddFaultEffect(m1, o1, OutputRep(fanouts, 1));
  }

  /** `reg_faults(node)` for a simple gate: the output faults, joined to
      the fanout's input faults when the node has a single fanout into a
      node that is not an output, then the input faults by gate type. */
  method RegFaults(m: Mgr, node: nat, t: SatCnf.GateType, ni: nat, fanouts: seq<Fanout>) returns (r: Mgr)
    requires Inv(m) && Handled(t)
    requires forall v: Bit :: OutputRep(fanouts, v).Some? ==> OutputRep(fanouts, v).value in m.recs
    requires forall v: Bit :: OutputRep(fanouts, v).Some? ==> OutputRep(fanouts, v).value.node != node
    ensures Inv(r)
    ensures forall k: nat, v: Bit :: k < ni ==> InputPlaced(r, node, k, v, InputRep(t, v))
    ensures forall v: Bit :: Site(node, true, 0, v) in r.recs
    ensures forall v: Bit :: OutputRep(fanouts, v).Some? ==>
              OutputRep(fanouts, v).value in r.recs
              && r.recs[Site(node, true, 0, v)].info == r.recs[OutputRep(fanouts, v).value].info
    ensures forall v: Bit :: OutputRep(fanouts, v).None? ==> Site(node, true, 0, v) in r.allRepList
  {
    var m2 := AddOutputFaults(m, node, fanouts);
    assert Site(node, true, 0, 0) in m2.recs && Site(node, true, 0, 1) in m2.recs;
    r := AddInputFaults(m2, node, t, ni);
  }

  // ---------------------------------------------------------------------
  // set_ssa_fault: reachability from the outputs

  /** The fanin lists of the network's nodes. */
  type Graph = map<nat, seq<nat>>

  predicate GraphOk(g: Graph) {
    forall n, i :: n in g && 0 <= i < |g[n]| ==> g[n][i] in g
  }

  /** `x` is in the transitive fanin of `n`: a path of fanin steps leads
      from `n` to `x`. */
  predicate Path(g: Graph, p: seq<nat>) {
    && |p| >= 1
    && (forall k :: 0 <= k < |p| ==> p[k] in g)
    && (forall k :: 0 <= k < |p| - 1 ==> p[k + 1] in g[p[k]])
  }

  ghost predicate Reaches(g: Graph, n: nat, x: nat) {
    exists p :: Path(g, p) && p[0] == n && p[|p| - 1] == x
  }

  /** Every marked node outside `open` has all its fanins marked. */
  predicate ClosedExcept(g: Graph, mark: set<nat>, open: set<nat>) {
    forall x, i :: x in mark && x !in open && x in g && 0 <= i < |g[x]| ==> g[x][i] in mark
  }

  lemma DiffShrinks(k: set<nat>, a: set<nat>, b: set<nat>, x: nat)
    requires a <= b && x in k && x in b && x !in a
    ensures |k - b| < |k - a|
  {
    assert k - b <= (k - a) - {x};
    assert (k - a) == ((k - a) - {x}) + {x};
    SubsetCard(k - b, (k - a) - {x});
  }

  lemma SubsetCard(a: set<nat>, b: set<nat>)
    requires a <= b
    ensures |a| <= |b|
  {
    assert b == a + (b - a);
  }

  /** `tfi_mark(node, mark)`: depth-first marking of the transitive fanin.
      Nodes marked before stay marked; the new marks are exactly the
      unmarked part of the transitive fanin reached through unmarked nodes,
      and closedness of the marks is kept. */
  method TfiMark(g: Graph, n: nat, mark: set<nat>, ghost open: set<nat>) returns (mark': set<nat>)
    requires GraphOk(g) && n in g && mark <= g.Keys
    requires ClosedExcept(g, mark, open) && open <= mark
    ensures mark <= mark' <= g.Keys && n in mark'
    ensures ClosedExcept(g, mark', open)
    ensures forall x :: x in mark' && x !in mark ==> Reaches(g, n, x)
    decreases |g.Keys - mark|
  {
    if n in mark {
      return mark;
    }
    mark' := mark + {n};
    assert Path(g, [n]);
    var i := 0;
    while i < |g[n]|
      invariant 0 <= i <= |g[n]|
      invariant mark + {n} <= mark' <= g.Keys
      invariant ClosedExcept(g, mark', open + {n}) && open + {n} <= mark'
      invariant forall k :: 0 <= k < i ==> g[n][k] in mark'
      invariant forall x :: x in mark' && x !in mark ==> Reaches(g, n, x)
    {
      var c := g[n][i];
      DiffShrinks(g.Keys, mark, mark', n);
      ghost var before := mark';
      mark' := TfiMark(g, c, mark', open + {n});
      forall x | x in mark' && x !in before ensures Reaches(g, n, x) {
        StepReach(g, n, c, x);
      }
      i := i + 1;
    }
  }

  /** Prepending a fanin step to a path. */
  lemma StepReach(g: Graph, n: nat, c: nat, x: nat)
    requires n in g && c in g[n] && Reaches(g, c, x)
    ensures Reaches(g, n, x)
  {
    var p :| Path(g, p) && p[0] == c && p[|p| - 1] == x;
    var q := [n] + p;
    assert q[1..] == p;
    assert Path(g, q);
  }

  /** Marking from every output in turn. */
  method MarkOutputs(g: Graph, outs: seq<nat>) returns (mark: set<nat>)
    requires GraphOk(g) && forall k :: 0 <= k < |outs| ==> outs[k] in g
    ensures mark <= g.Keys
    ensures ClosedExcept(g, mark, {})
    ensures forall k :: 0 <= k < |outs| ==> outs[k] in mark
    ensures forall x :: x in mark ==> exists k :: 0 <= k < |outs| && Reaches(g, outs[k], x)
  {
    mark := {};
    var k := 0;
    while k < |outs|
      invariant 0 <= k <= |outs| && mark <= g.Keys
      invariant ClosedExcept(g, mark, {})
      invariant forall j :: 0 <= j < k ==> outs[j] in mark
      invariant forall x :: x in mark ==> exists j :: 0 <= j < k && Reaches(g, outs[j], x)
    {
      ghost var before := mark;
      mark := TfiMark(g, outs[k], mark, {});
      k := k + 1;
    }
  }

  /** A closed mark set holds the whole transitive fanin of each marked
      node. */
  lemma {:induction false} ClosedHoldsTfi(g: Graph, mark: set<nat>, p: seq<nat>)
    requires ClosedExcept(g, mark, {}) && Path(g, p) && p[0] in mark
    ensures p[|p| - 1] in mark
    decreases |p|
  {
    if |p| > 1 {
      assert p[1] in g[p[0]];
      var q := p[1..];
      assert Path(g, q);
      ClosedHoldsTfi(g, mark, q);
    }
  }

  /** The marks after `MarkOutputs` are exactly the nodes in the transitive
      fanin of some output. */
  lemma MarkedIffReached(g: Graph, outs: seq<nat>, mark: set<nat>, x: nat)
    requires ClosedExcept(g, mark, {})
    requires forall k :: 0 <= k < |outs| ==> outs[k] in mark
    requires forall y :: y in mark ==> exists k :: 0 <= k < |outs| && Reaches(g, outs[k], y)
    ensures x in mark <==> exists k :: 0 <= k < |outs| && Reaches(g, outs[k], x)
  {
    if exists k :: 0 <= k < |outs| && Reaches(g, outs[k], x) {
      var k :| 0 <= k < |outs| && Reaches(g, outs[k], x);
      var p :| Path(g, p) && p[0] == outs[k] && p[|p| - 1] == x;
      ClosedHoldsTfi(g, mark, p);
    }
  }

  /** The last step of `set_ssa_fault`: representatives whose node is
      marked remain, the others are untestable, both in order. */
  function Partition(reps: seq<Site>, mark: set<nat>): (r: (seq<Site>, seq<Site>))
    ensures r.0 == Filter(reps, (f: Site) => f.node in mark)
    ensures r.1 == Filter(reps, (f: Site) => f.node !in mark)
    ensures |r.0| + |r.1| == |reps|
    decreases |reps|
  {
    if reps == [] then ([], [])
    else
      var r := Partition(reps[..|reps| - 1], mark);
      var f := reps[|reps| - 1];
      if f.node in mark then (r.0 + [f], r.1) else (r.0, r.1 + [f])
  }
}
