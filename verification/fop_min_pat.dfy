/** The fault-simulation callback of the pattern minimiser
    (`Fop2MinPat`): for every fault it counts the patterns of the current
    64-pattern block that detect it, remembers those patterns, and asks the
    simulator to skip the fault once the count reaches the limit. */
module FopMinPat {
  import opened Base

  /** `kPvBitLen`: the patterns simulated together, one per bit. */
  const PvBitLen: nat := 64

  /** The callback state: the limit, per-fault detection counts and
      pattern lists, and the current block of patterns (`mCurPatList`). */
  datatype Fop = Fop(limit: nat, detCount: seq<nat>, patLists: seq<seq<nat>>, curPats: seq<nat>)

  predicate FopOk(op: Fop) {
    |op.detCount| == |op.patLists|
  }

  /** The constructor: limit 1, every count 0 and every list empty for the
      `all_num` faults. */
  function NewFop(allNum: nat): (op: Fop)
    ensures FopOk(op) && op.limit == 1 && |op.detCount| == allNum
    ensures forall f :: 0 <= f < allNum ==> op.detCount[f] == 0 && op.patLists[f] == []
  {
    Fop(1, seq(allNum, _ => 0), seq(allNum, _ => []), [])
  }

  /** The lowest `k` bits of `w`, lowest first: entry `i` is the test
      `dpat & (1 << i)` of the source. */
  function BitList(w: bv64, k: nat): (r: seq<bool>)
    ensures |r| == k
    decreases k
  {
    if k == 0 then [] else [w & 1 == 1] + BitList(w >> 1, k - 1)
  }

  /** The number of set entries. */
  function CountSet(bits: seq<bool>): (r: nat)
    ensures r <= |bits|
  {
    if bits == [] then 0 else (if bits[0] then 1 else 0) + CountSet(bits[1..])
  }

  /** Counting the set bits of the list is counting the one bits of the
      word. */
  lemma {:induction false} CountSetIsPopCount(w: bv64, k: nat)
    requires k <= PvBitLen
    ensures CountSet(BitList(w, k)) == PopCountLow(w, k)
    decreases k
  {
    if k > 0 {
      CountSetIsPopCount(w >> 1, k - 1);
      assert BitList(w, k)[1..] == BitList(w >> 1, k - 1);
    }
  }

  lemma {:induction false} CountSetSnoc(bits: seq<bool>, i: nat)
    requires i < |bits|
    ensures CountSet(bits[..i + 1]) == CountSet(bits[..i]) + (if bits[i] then 1 else 0)
    decreases i
  {
    if i > 0 {
      assert bits[..i + 1][1..] == bits[1..][..i];
      assert bits[..i][1..] == bits[1..][..i - 1];
      CountSetSnoc(bits[1..], i - 1);
    } else {
      assert bits[..1] == [bits[0]];
    }
  }

  /** Every set bit has its pattern in the current block. */
  predicate PatsCover(bits: seq<bool>, pats: seq<nat>) {
    forall i :: 0 <= i < |bits| && bits[i] ==> i < |pats|
  }

  /** The patterns of the set bits below `k`, in bit order. */
  function Picked(bits: seq<bool>, pats: seq<nat>, k: nat): (r: seq<nat>)
    requires k <= |bits| && PatsCover(bits, pats)
    ensures |r| <= k
    ensures forall j :: 0 <= j < |r| ==> r[j] in pats
  {
    if k == 0 then []
    else Picked(bits, pats, k - 1) + (if bits[k - 1] then [pats[k - 1]] else [])
  }

  /** One pattern per set bit. */
  lemma {:induction false} PickedCount(bits: seq<bool>, pats: seq<nat>, k: nat)
    requires k <= |bits| && PatsCover(bits, pats)
    ensures |Picked(bits, pats, k)| == CountSet(bits[..k])
    decreases k
  {
    if k > 0 {
      PickedCount(bits, pats, k - 1);
      CountSetSnoc(bits, k - 1);
    }
  }

  /** Every detecting pattern below bit `k` is among those picked. */
  lemma {:induction false} PickedHasDetecting(bits: seq<bool>, pats: seq<nat>, k: nat, i: nat)
    requires k <= |bits| && PatsCover(bits, pats)
    requires i < k && bits[i]
    ensures pats[i] in Picked(bits, pats, k)
    decreases k
  {
    if i < k - 1 {
      PickedHasDetecting(bits, pats, k - 1, i);
    }
  }

  /** The loop of `operator()` over the bits of one word: the number of
      set bits and their patterns, in bit order. */
  method Collect(bits: seq<bool>, pats: seq<nat>) returns (count: nat, picked: seq<nat>)
    requires PatsCover(bits, pats)
    ensures count == CountSet(bits)
    ensures picked == Picked(bits, pats, |bits|)
  {
    count, picked := 0, [];
    var i := 0;
    while i < |bits|
      invariant i <= |bits|
      invariant count == CountSet(bits[..i])
      invariant picked == Picked(bits, pats, i)
    {
      CountSetSnoc(bits, i);
      if bits[i] {
        count := count + 1;
        picked := picked + [pats[i]];
      }
      i := i + 1;
    }
    assert bits[..i] == bits;
  }

  /** `operator()(f, dpat)`: add the detecting patterns of `dpat` to fault
      `fid`, then report whether the fault is to be skipped. */
  method Detect(op: Fop, fid: nat, dpat: bv64) returns (op': Fop, skip: bool)
    requires FopOk(op) && fid < |op.detCount| && PatsCover(BitList(dpat, PvBitLen), op.curPats)
    ensures FopOk(op') && op'.limit == op.limit && op'.curPats == op.curPats
    ensures |op'.detCount| == |op.detCount|
    ensures op'.detCount[fid] == op.detCount[fid] + PopCount(dpat)
    ensures op'.patLists[fid] == op.patLists[fid] + Picked(BitList(dpat, PvBitLen), op.curPats, PvBitLen)
    ensures forall f :: 0 <= f < |op.detCount| && f != fid ==>
              op'.detCount[f] == op.detCount[f] && op'.patLists[f] == op.patLists[f]
    ensures skip <==> op'.detCount[fid] >= op.limit
  {
    var count, picked := Collect(BitList(dpat, PvBitLen), op.curPats);
    CountSetIsPopCount(dpat, PvBitLen);
    var total := op.detCount[fid] + count;
    op' := op.(detCount := op.detCount[fid := total], patLists := op.patLists[fid := op.patLists[fid] + picked]);
    skip := total >= op.limit;
  }

  /** A word with no bit set picks nothing. */
  lemma {:induction false} NoDetectionNoChange(bits: seq<bool>, pats: seq<nat>, k: nat)
    requires k <= |bits| && forall i :: 0 <= i < |bits| ==> !bits[i]
    ensures Picked(bits, pats, k) == []
    decreases k
  {
    if k > 0 {
      NoDetectionNoChange(bits, pats, k - 1);
    }
  }

  /** `clear_count()`: every count 0 and every list empty. */
  function ClearCount(op: Fop): (op': Fop)
    requires FopOk(op)
    ensures FopOk(op') && |op'.detCount| == |op.detCount|
    ensures forall f :: 0 <= f < |op'.detCount| ==> op'.detCount[f] == 0 && op'.patLists[f] == []
    ensures op'.limit == op.limit && op'.curPats == op.curPats
  {
    op.(detCount := seq(|op.detCount|, _ => 0), patLists := seq(|op.patLists|, _ => []))
  }

  /** After `clear_count` the state is that of a fresh callback with the
      same limit and patterns. */
  lemma ClearCountIsFresh(op: Fop)
    requires FopOk(op)
    ensures ClearCount(op) == NewFop(|op.detCount|).(limit := op.limit, curPats := op.curPats)
  {
  }

  /** `set_limit(limit)`. */
  function SetLimit(op: Fop, limit: nat): (op': Fop)
    ensures op'.limit == limit
    ensures op'.detCount == op.detCount && op'.patLists == op.patLists && op'.curPats == op.curPats
  {
    op.(limit := limit)
  }

  /** `set_pattern(pat_list)`. */
  function SetPattern(op: Fop, pats: seq<nat>): (op': Fop)
    ensures op'.curPats == pats
    ensures op'.limit == op.limit && op'.detCount == op.detCount && op'.patLists == op.patLists
  {
    op.(curPats := pats)
  }

  /** `pat_list(f_id)`. */
  function PatList(op: Fop, fid: nat): seq<nat>
    requires fid < |op.patLists|
  {
    op.patLists[fid]
  }

  /** The counts and lists agree: a fault's count is the length of its
      pattern list, from the start and across every detection. */
  predicate CountsMatch(op: Fop) {
    FopOk(op) && forall f :: 0 <= f < |op.detCount| ==> op.detCount[f] == |op.patLists[f]|
  }

  lemma DetectKeepsCountsMatch(op: Fop, fid: nat, dpat: bv64, op': Fop)
    requires CountsMatch(op) && fid < |op.detCount| && PatsCover(BitList(dpat, PvBitLen), op.curPats)
    requires FopOk(op') && |op'.detCount| == |op.detCount|
    requires op'.detCount[fid] == op.detCount[fid] + PopCount(dpat)
    requires op'.patLists[fid] == op.patLists[fid] + Picked(BitList(dpat, PvBitLen), op.curPats, PvBitLen)
    requires forall f :: 0 <= f < |op.detCount| && f != fid ==>
               op'.detCount[f] == op.detCount[f] && op'.patLists[f] == op.patLists[f]
    ensures CountsMatch(op')
  {
    var bits := BitList(dpat, PvBitLen);
    PickedCount(bits, op.curPats, PvBitLen);
    assert bits[..PvBitLen] == bits;
    CountSetIsPopCount(dpat, PvBitLen);
  }
}
