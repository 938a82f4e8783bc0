/** The structural hash table of `BdNetwork`: `hash_func`, the chain lookup
    of `set_logic` and the resize-and-rehash of `alloc_table`. */
module BdnTable {
  import opened Base
  import opened TruthTable
  import opened Canon
  import opened BdnTypes

  const Word: nat := 0x1_0000_0000

  /** `hash_func`: `((id0 * 3 + id1) << 3) | (fcode >> 1)` in 32-bit unsigned
      arithmetic.  The shift leaves the low three bits clear, so the `|` is an
      addition, and shifting by 3 modulo 2^32 keeps the low 29 bits. */
  function Hash(f: FCode, id0: nat, id1: nat): (h: nat)
    ensures h < Word
    // bits 1-3 of the code sit in the low three bits of the hash
    ensures h % 8 == (f as nat) / 2
  {
    ((id0 * 3 + id1) % 0x2000_0000) * 8 + (f as nat) / 2
  }

  /** The hash of the key a node object currently has. */
  function KeyHash(net: Network, r: Ref): nat
    requires r in net.objs
  {
    var n := net.objs[r];
    Hash(n.fcode, if n.fanin0.Some? then IdOf(net, n.fanin0.value) else 0,
                  if n.fanin1.Some? then IdOf(net, n.fanin1.value) else 0)
  }

  /** The bucket a node object belongs in under the current table size. */
  function BucketOf(net: Network, r: Ref): nat
    requires r in net.objs && |net.buckets| > 0
  {
    KeyHash(net, r) % |net.buckets|
  }

  /** Does node `n` have code `f` and fanins `a`, `b` (the lookup's test)? */
  predicate Matches(n: Node, f: FCode, a: Ref, b: Ref) {
    n.fcode == f && n.fanin0 == Some(a) && n.fanin1 == Some(b)
  }

  /** The first node of `chain` with code `f` and fanins `a`, `b`. */
  function FindInChain(objs: map<Ref, Node>, chain: seq<Ref>, f: FCode, a: Ref, b: Ref): (r: Option<Ref>)
    ensures r.Some? ==> r.value in chain && r.value in objs && Matches(objs[r.value], f, a, b)
    ensures r.None? ==>
              forall k :: 0 <= k < |chain| && chain[k] in objs ==> !Matches(objs[chain[k]], f, a, b)
    ensures r.Some? && |chain| > 0 && chain[0] in objs && Matches(objs[chain[0]], f, a, b) ==>
              r.value == chain[0]
  {
    if chain == [] then None
    else if chain[0] in objs && Matches(objs[chain[0]], f, a, b) then Some(chain[0])
    else FindInChain(objs, chain[1..], f, a, b)
  }

  /** Every chain entry is a logic node filed under its own key's bucket. */
  predicate Placed(net: Network) {
    && |net.buckets| > 0
    && (forall i, k :: 0 <= i < |net.buckets| && 0 <= k < |net.buckets[i]| ==>
          net.buckets[i][k] in net.objs && net.objs[net.buckets[i][k]].kind == Logic
          && BucketOf(net, net.buckets[i][k]) == i)
  }

  /** Every logic node of the list can be found in its bucket. */
  predicate TableComplete(net: Network)
    requires Placed(net)
    requires forall k :: 0 <= k < |net.lnodes| ==> net.lnodes[k] in net.objs
  {
    forall k :: 0 <= k < |net.lnodes| ==>
      net.lnodes[k] in net.buckets[BucketOf(net, net.lnodes[k])]
  }

  /** Every chain entry is a node of the logic-node list. */
  predicate TableSound(net: Network) {
    forall i, k :: 0 <= i < |net.buckets| && 0 <= k < |net.buckets[i]| ==>
      net.buckets[i][k] in net.lnodes
  }

  predicate TableOk(net: Network) {
    && Placed(net)
    && (forall k :: 0 <= k < |net.lnodes| ==> net.lnodes[k] in net.objs)
    && TableComplete(net)
    && TableSound(net)
  }

  /** `set_logic`'s probe: the bucket of the key `(f, a, b)` searched head first. */
  function Lookup(net: Network, f: FCode, a: Ref, b: Ref): (r: Option<Ref>)
    requires |net.buckets| > 0
    ensures r.Some? ==> r.value in net.objs && Matches(net.objs[r.value], f, a, b)
  {
    var idx := Hash(f, IdOf(net, a), IdOf(net, b)) % |net.buckets|;
    FindInChain(net.objs, net.buckets[idx], f, a, b)
  }

  /** With a complete table, a failed probe means no logic node of the list
      has the key, and a successful one returns a node of the list. */
  lemma LookupExact(net: Network, f: FCode, a: Ref, b: Ref)
    requires TableOk(net)
    ensures Lookup(net, f, a, b).None? ==>
              forall k :: 0 <= k < |net.lnodes| ==> !Matches(net.objs[net.lnodes[k]], f, a, b)
    ensures Lookup(net, f, a, b).Some? ==> Lookup(net, f, a, b).value in net.lnodes
  {
    var idx := Hash(f, IdOf(net, a), IdOf(net, b)) % |net.buckets|;
    var chain := net.buckets[idx];
    if Lookup(net, f, a, b).Some? {
      var r := Lookup(net, f, a, b).value;
      var j :| 0 <= j < |chain| && chain[j] == r;
    }
  }

  /** The table size `alloc_table` settles on: `size` doubled until it
      reaches `req`. */
  function GrowSize(size: nat, req: nat): (s: nat)
    requires size > 0
    ensures s >= req && s >= size
    ensures exists k :: s == size * Pow2(k)
    ensures s == size || s < 2 * req     // no more doubling than needed
    decreases req - size
  {
    if size < req then
      var s := GrowSize(size * 2, req);
      var k: nat :| s == size * 2 * Pow2(k);
      assert s == size * Pow2(k + 1);
      s
    else
      assert size == size * Pow2(0);
      size
  }

  /** Chain `chain` moved, head first, into `tbl`, each node pushed on the
      head of the bucket of its key. */
  function RehashChain(net: Network, chain: seq<Ref>, tbl: seq<seq<Ref>>): (r: seq<seq<Ref>>)
    requires |tbl| > 0
    requires forall k :: 0 <= k < |chain| ==> chain[k] in net.objs
    ensures |r| == |tbl|
    decreases |chain|
  {
    if chain == [] then tbl
    else
      var idx := KeyHash(net, chain[0]) % |tbl|;
      RehashChain(net, chain[1..], tbl[idx := [chain[0]] + tbl[idx]])
  }

  /** All chains of `prev`, bucket 0 first, moved into `tbl`. */
  function RehashAll(net: Network, prev: seq<seq<Ref>>, tbl: seq<seq<Ref>>): (r: seq<seq<Ref>>)
    requires |tbl| > 0
    requires forall i, k :: 0 <= i < |prev| && 0 <= k < |prev[i]| ==> prev[i][k] in net.objs
    ensures |r| == |tbl|
    decreases |prev|
  {
    if prev == [] then tbl
    else RehashAll(net, prev[1..], RehashChain(net, prev[0], tbl))
  }

  /** A node lands in a bucket of the new table exactly when it was there
      already or it was moved and its key hashes there. */
  lemma {:induction false} RehashChainMembers(net: Network, chain: seq<Ref>, tbl: seq<seq<Ref>>, i: nat, x: Ref)
    requires |tbl| > 0 && i < |tbl|
    requires forall k :: 0 <= k < |chain| ==> chain[k] in net.objs
    ensures x in RehashChain(net, chain, tbl)[i] <==>
              x in tbl[i] || (x in chain && KeyHash(net, x) % |tbl| == i)
    decreases |chain|
  {
    if chain != [] {
      var idx := KeyHash(net, chain[0]) % |tbl|;
      var tbl' := tbl[idx := [chain[0]] + tbl[idx]];
      RehashChainMembers(net, chain[1..], tbl', i, x);
      assert chain == [chain[0]] + chain[1..];
      assert x in chain <==> x == chain[0] || x in chain[1..];
    }
  }

  lemma {:induction false} RehashAllMembers(net: Network, prev: seq<seq<Ref>>, tbl: seq<seq<Ref>>, i: nat, x: Ref)
    requires |tbl| > 0 && i < |tbl|
    requires forall j, k :: 0 <= j < |prev| && 0 <= k < |prev[j]| ==> prev[j][k] in net.objs
    ensures x in RehashAll(net, prev, tbl)[i] <==>
              x in tbl[i] || ((exists j :: 0 <= j < |prev| && x in prev[j]) && KeyHash(net, x) % |tbl| == i)
    decreases |prev|
  {
    if prev != [] {
      var tbl' := RehashChain(net, prev[0], tbl);
      RehashChainMembers(net, prev[0], tbl, i, x);
      RehashAllMembers(net, prev[1..], tbl', i, x);
      assert (exists j :: 0 <= j < |prev| && x in prev[j]) <==>
             x in prev[0] || (exists j :: 0 <= j < |prev[1..]| && x in prev[1..][j]) by {
        if exists j :: 0 <= j < |prev| && x in prev[j] {
          var j :| 0 <= j < |prev| && x in prev[j];
          if j > 0 { assert x in prev[1..][j - 1]; }
        }
        if exists j :: 0 <= j < |prev[1..]| && x in prev[1..][j] {
          var j :| 0 <= j < |prev[1..]| && x in prev[1..][j];
          assert x in prev[j + 1];
        }
      }
    }
  }

  /** `alloc_table(req)`: a table of at least `req` buckets (at least 1024 on
      first use), the prev chains rehashed into it, and the load limit set to
      1.8 times the size. */
  function AllocTable(net: Network, req: nat): (r: Network)
    requires forall i, k :: 0 <= i < |net.buckets| && 0 <= k < |net.buckets[i]| ==>
               net.buckets[i][k] in net.objs
    ensures |r.buckets| >= req && |r.buckets| >= |net.buckets| && |r.buckets| > 0
    ensures |net.buckets| == 0 ==> |r.buckets| >= 1024
    ensures r.nextLimit == |r.buckets| * 9 / 5
    ensures r == net.(buckets := r.buckets, nextLimit := r.nextLimit)
  {
    var size0 := if |net.buckets| == 0 then 1024 else |net.buckets|;
    var size := GrowSize(size0, req);
    var tbl := RehashAll(net, net.buckets, seq(size, _ => []));
    net.(buckets := tbl, nextLimit := size * 9 / 5)
  }

  /** Resizing keeps every chain entry, each now in the bucket its key
      selects under the new size. */
  lemma AllocTableRehashes(net: Network, req: nat)
    requires Placed(net)
    ensures Placed(AllocTable(net, req))
    ensures forall i, x :: 0 <= i < |AllocTable(net, req).buckets| ==>
              (x in AllocTable(net, req).buckets[i] <==>
                 (exists j :: 0 <= j < |net.buckets| && x in net.buckets[j])
                 && BucketOf(AllocTable(net, req), x) == i)
  {
    var r := AllocTable(net, req);
    var size := |r.buckets|;
    var empty: seq<seq<Ref>> := seq(size, _ => []);
    assert r.buckets == RehashAll(net, net.buckets, empty);
    forall i, x | 0 <= i < size
      ensures x in r.buckets[i] <==>
                (exists j :: 0 <= j < |net.buckets| && x in net.buckets[j]) && BucketOf(r, x) == i
    {
      RehashAllMembers(net, net.buckets, empty, i, x);
      assert empty[i] == [];
      if x in r.buckets[i] {
        var j :| 0 <= j < |net.buckets| && x in net.buckets[j];
        assert x in net.objs;
        assert KeyHash(r, x) == KeyHash(net, x);
      } else if exists j :: 0 <= j < |net.buckets| && x in net.buckets[j] {
        var j :| 0 <= j < |net.buckets| && x in net.buckets[j];
        assert KeyHash(r, x) == KeyHash(net, x);
      }
    }
    forall i, k | 0 <= i < size && 0 <= k < |r.buckets[i]|
      ensures r.buckets[i][k] in r.objs && r.objs[r.buckets[i][k]].kind == Logic
              && BucketOf(r, r.buckets[i][k]) == i
    {
      var x := r.buckets[i][k];
      assert x in r.buckets[i];
      RehashAllMembers(net, net.buckets, empty, i, x);
      assert empty[i] == [];
      var j :| 0 <= j < |net.buckets| && x in net.buckets[j];
      var l :| 0 <= l < |net.buckets[j]| && net.buckets[j][l] == x;
      assert KeyHash(r, x) == KeyHash(net, x);
    }
  }

  /** Resizing keeps the table consistent with the logic-node list. */
  lemma AllocTableKeepsTable(net: Network, req: nat)
    requires TableOk(net)
    ensures TableOk(AllocTable(net, req))
  {
    var r := AllocTable(net, req);
    AllocTableRehashes(net, req);
    forall k | 0 <= k < |r.lnodes| ensures r.lnodes[k] in r.buckets[BucketOf(r, r.lnodes[k])] {
      var x := r.lnodes[k];
      assert x in net.buckets[BucketOf(net, x)];
      assert KeyHash(r, x) == KeyHash(net, x);
    }
    forall i, k | 0 <= i < |r.buckets| && 0 <= k < |r.buckets[i]| ensures r.buckets[i][k] in r.lnodes {
      var x := r.buckets[i][k];
      assert x in r.buckets[i];
      var j :| 0 <= j < |net.buckets| && x in net.buckets[j];
      var l :| 0 <= l < |net.buckets[j]| && net.buckets[j][l] == x;
    }
  }
}
