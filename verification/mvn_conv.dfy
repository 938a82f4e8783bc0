/** The network conversion from a multi-valued network to a Boolean
    network (`MvnBdnConv`): the port bit layout and the I/O nodes it
    creates, the readiness rule of the topological queue, the bits of a
    constant, and the priority encoding of asynchronous set/reset. */
module MvnConv {
  import opened Base

  // ---------------------------------------------------------------------
  // Constant bits
  // ---------------------------------------------------------------------

  /** `w` shifted right by `k` places. */
  function Shr(w: nat, k: nat): nat {
    if k == 0 then w else Shr(w, k - 1) / 2
  }

  /** Bit `j` of a constant held as 32-bit words, least significant word
      first: bit `j % 32` of word `j / 32`. */
  predicate BitAt(value: seq<bv32>, j: nat)
    requires j / 32 < |value|
  {
    Shr(value[j / 32] as nat, j % 32) % 2 == 1
  }

  /** `n` bits of a constant from bit `j` on. */
  function Bits(value: seq<bv32>, j: nat, n: nat): (r: seq<bool>)
    requires j + n <= 32 * |value|
    ensures |r| == n
  {
    seq(n, i requires 0 <= i < n => BitAt(value, j + i))
  }

  /** The intended bits of a `bw`-bit constant (true for `make_one`). */
  function ConstBitsRef(value: seq<bv32>, bw: nat): (r: seq<bool>)
    requires bw <= 32 * |value|
    ensures |r| == bw
    ensures forall j :: 0 <= j < bw ==> r[j] == BitAt(value, j)
  {
    Bits(value, 0, bw)
  }

  function Cons(b: bool, r: Option<seq<bool>>): (s: Option<seq<bool>>)
    ensures s.Some? == r.Some?
  {
    if r.Some? then Some([b] + r.value) else None
  }

  /** The bit loop as written, from bit `j` on: `pat` is the current word
      shifted down so that its low bit is bit `j`; after bit 31 of a word
      the next word is read, even when no bit follows.  `None` stands for
      a read past the end of `value`. */
  function ConstLoopAsWritten(value: seq<bv32>, bw: nat, j: nat, bpos: nat, pat: nat): Option<seq<bool>>
    requires j <= bw
    decreases bw - j
  {
    if j == bw then Some([])
    else if j % 32 == 31 then
      if bpos + 1 < |value| then Cons(pat % 2 == 1, ConstLoopAsWritten(value, bw, j + 1, bpos + 1, value[bpos + 1] as nat))
      else None
    else Cons(pat % 2 == 1, ConstLoopAsWritten(value, bw, j + 1, bpos, pat / 2))
  }

  /** The constant-node branch as written: `value[0]` is read first. */
  function ConstBitsAsWritten(value: seq<bv32>, bw: nat): Option<seq<bool>> {
    if |value| == 0 then None else ConstLoopAsWritten(value, bw, 0, 0, value[0] as nat)
  }

  /** The loop as evidently intended: the next word is read only when
      another bit follows. */
  function ConstLoop(value: seq<bv32>, bw: nat, j: nat, bpos: nat, pat: nat): Option<seq<bool>>
    requires j <= bw
    decreases bw - j
  {
    if j == bw then Some([])
    else if j % 32 == 31 && j + 1 < bw then
      if bpos + 1 < |value| then Cons(pat % 2 == 1, ConstLoop(value, bw, j + 1, bpos + 1, value[bpos + 1] as nat))
      else None
    else Cons(pat % 2 == 1, ConstLoop(value, bw, j + 1, bpos, pat / 2))
  }

  function ConstBits(value: seq<bv32>, bw: nat): Option<seq<bool>> {
    if bw == 0 then Some([])
    else if |value| == 0 then None
    else ConstLoop(value, bw, 0, 0, value[0] as nat)
  }

  /** The loop state the constant branch keeps: word `bpos` is word
      `j / 32` and `pat` is it shifted down by `j % 32`. */
  predicate LoopState(value: seq<bv32>, j: nat, bpos: nat, pat: nat) {
    bpos == j / 32 && bpos < |value| && pat == Shr(value[bpos] as nat, j % 32)
  }

  /** A loop result from bit `j` on: it exists exactly when `covered`,
      and then holds the constant's bits from `j` to `bw - 1`. */
  predicate ResultOk(value: seq<bv32>, bw: nat, j: nat, covered: bool, r: Option<seq<bool>>) {
    && (r.Some? <==> covered)
    && (r.Some? ==> j <= bw <= 32 * |value| && r.value == Bits(value, j, bw - j))
  }

  /** As written, the loop completes exactly when `value` has a word past
      bit `bw - 1` (word `bw / 32`), and then yields the intended bits. */
  lemma {:induction false} ConstLoopAsWrittenSpec(value: seq<bv32>, bw: nat, j: nat, bpos: nat, pat: nat)
    requires j <= bw && LoopState(value, j, bpos, pat)
    ensures ResultOk(value, bw, j, bw / 32 < |value|, ConstLoopAsWritten(value, bw, j, bpos, pat))
    decreases bw - j
  {
    StateBounds(value, j, bpos, pat);
    if j == bw {
      assert bw / 32 < |value|;
    } else if j % 32 == 31 {
      StateNextWord(value, j, bpos, pat);
      if bpos + 1 < |value| {
        ConstLoopAsWrittenSpec(value, bw, j + 1, bpos + 1, value[bpos + 1] as nat);
      }
      AsWrittenNextWord(value, bw, j, bpos, pat);
    } else {
      StateShift(value, j, bpos, pat);
      ConstLoopAsWrittenSpec(value, bw, j + 1, bpos, pat / 2);
      AsWrittenShift(value, bw, j, bpos, pat);
    }
  }

  /** The as-written step after bit 31 of a word. */
  lemma AsWrittenNextWord(value: seq<bv32>, bw: nat, j: nat, bpos: nat, pat: nat)
    requires j < bw && LoopState(value, j, bpos, pat) && j % 32 == 31
    requires j + 1 == 32 * (bpos + 1) && j < 32 * |value|
    requires bpos + 1 < |value| ==>
               ResultOk(value, bw, j + 1, bw / 32 < |value|, ConstLoopAsWritten(value, bw, j + 1, bpos + 1, value[bpos + 1] as nat))
    ensures ResultOk(value, bw, j, bw / 32 < |value|, ConstLoopAsWritten(value, bw, j, bpos, pat))
  {
    if bpos + 1 < |value| {
      ConsStep(value, bw, j, bpos, pat, bw / 32 < |value|, ConstLoopAsWritten(value, bw, j + 1, bpos + 1, value[bpos + 1] as nat));
    }
  }

  /** The as-written step within a word. */
  lemma AsWrittenShift(value: seq<bv32>, bw: nat, j: nat, bpos: nat, pat: nat)
    requires j < bw && LoopState(value, j, bpos, pat) && j % 32 != 31
    requires ResultOk(value, bw, j + 1, bw / 32 < |value|, ConstLoopAsWritten(value, bw, j + 1, bpos, pat / 2))
    ensures ResultOk(value, bw, j, bw / 32 < |value|, ConstLoopAsWritten(value, bw, j, bpos, pat))
  {
    ConsStep(value, bw, j, bpos, pat, bw / 32 < |value|, ConstLoopAsWritten(value, bw, j + 1, bpos, pat / 2));
  }

  /** The current bit lies in word `bpos`. */
  lemma StateBounds(value: seq<bv32>, j: nat, bpos: nat, pat: nat)
    requires LoopState(value, j, bpos, pat)
    ensures 32 * bpos <= j < 32 * bpos + 32 && j < 32 * |value|
  {
  }

  /** Within a word, the next bit is the current word shifted once more. */
  lemma StateShift(value: seq<bv32>, j: nat, bpos: nat, pat: nat)
    requires LoopState(value, j, bpos, pat) && j % 32 != 31
    ensures LoopState(value, j + 1, bpos, pat / 2)
  {
  }

  /** After bit 31 of a word, the next bit is bit 0 of the next word. */
  lemma StateNextWord(value: seq<bv32>, j: nat, bpos: nat, pat: nat)
    requires LoopState(value, j, bpos, pat) && j % 32 == 31
    ensures (j + 1) / 32 == bpos + 1 && (j + 1) % 32 == 0 && j + 1 == 32 * (bpos + 1)
    ensures bpos + 1 < |value| ==> LoopState(value, j + 1, bpos + 1, value[bpos + 1] as nat)
  {
  }

  /** Prepending the bit `pat` holds to the bits from `j + 1` on gives the
      bits from `j` on. */
  lemma ConsStep(value: seq<bv32>, bw: nat, j: nat, bpos: nat, pat: nat, covered: bool, rest: Option<seq<bool>>)
    requires j < bw && LoopState(value, j, bpos, pat)
    requires ResultOk(value, bw, j + 1, covered, rest)
    ensures ResultOk(value, bw, j, covered, Cons(pat % 2 == 1, rest))
  {
    if rest.Some? {
      BitsCons(value, j, bw - j);
    }
  }

  /** Bits from `j` on are bit `j` followed by the bits from `j + 1` on. */
  lemma BitsCons(value: seq<bv32>, j: nat, n: nat)
    requires 0 < n && j + n <= 32 * |value|
    ensures Bits(value, j, n) == [BitAt(value, j)] + Bits(value, j + 1, n - 1)
  {
    var r := [BitAt(value, j)] + Bits(value, j + 1, n - 1);
    forall i | 0 <= i < n
      ensures Bits(value, j, n)[i] == r[i]
    {
      if i > 0 {
        assert r[i] == Bits(value, j + 1, n - 1)[i - 1];
      }
    }
  }

  /** The as-written branch reads word `bw / 32`: it fails exactly when
      `value` holds no more than `bw / 32` words, and otherwise yields the
      intended bits. */
  lemma ConstBitsAsWrittenReads(value: seq<bv32>, bw: nat)
    ensures var r := ConstBitsAsWritten(value, bw);
            && (r.Some? <==> bw / 32 < |value|)
            && (r.Some? ==> r.value == ConstBitsRef(value, bw))
  {
    if |value| > 0 {
      ConstLoopAsWrittenSpec(value, bw, 0, 0, value[0] as nat);
    }
  }

  /** A 32-bit constant stored in its one word: the branch as written
      reads a second word that does not exist. */
  lemma ConstBitsAsWrittenOverreads()
    ensures ConstBitsAsWritten([0xFFFF_FFFF], 32).None?
  {
    ConstBitsAsWrittenReads([0xFFFF_FFFF], 32);
  }

  /** The corrected loop completes exactly when `value` covers bit
      `bw - 1`, and yields the intended bits. */
  lemma {:induction false} ConstLoopSpec(value: seq<bv32>, bw: nat, j: nat, bpos: nat, pat: nat)
    requires j < bw && LoopState(value, j, bpos, pat)
    ensures ResultOk(value, bw, j, bw <= 32 * |value|, ConstLoop(value, bw, j, bpos, pat))
    decreases bw - j
  {
    StateBounds(value, j, bpos, pat);
    if j + 1 == bw {
      CorrectLast(value, bw, j, bpos, pat);
    } else if j % 32 == 31 {
      StateNextWord(value, j, bpos, pat);
      if bpos + 1 < |value| {
        ConstLoopSpec(value, bw, j + 1, bpos + 1, value[bpos + 1] as nat);
      }
      CorrectNextWord(value, bw, j, bpos, pat);
    } else {
      StateShift(value, j, bpos, pat);
      ConstLoopSpec(value, bw, j + 1, bpos, pat / 2);
      CorrectShift(value, bw, j, bpos, pat);
    }
  }

  /** The corrected loop at the last bit reads no further word. */
  lemma CorrectLast(value: seq<bv32>, bw: nat, j: nat, bpos: nat, pat: nat)
    requires j + 1 == bw && LoopState(value, j, bpos, pat) && j < 32 * |value|
    ensures ResultOk(value, bw, j, bw <= 32 * |value|, ConstLoop(value, bw, j, bpos, pat))
  {
    assert ConstLoop(value, bw, j, bpos, pat) == Cons(pat % 2 == 1, Some([]));
    ConsStep(value, bw, j, bpos, pat, bw <= 32 * |value|, Some([]));
  }

  /** The corrected step after bit 31 of a word, with bits still to go. */
  lemma CorrectNextWord(value: seq<bv32>, bw: nat, j: nat, bpos: nat, pat: nat)
    requires j + 1 < bw && LoopState(value, j, bpos, pat) && j % 32 == 31
    requires j + 1 == 32 * (bpos + 1) && j < 32 * |value|
    requires bpos + 1 < |value| ==>
               ResultOk(value, bw, j + 1, bw <= 32 * |value|, ConstLoop(value, bw, j + 1, bpos + 1, value[bpos + 1] as nat))
    ensures ResultOk(value, bw, j, bw <= 32 * |value|, ConstLoop(value, bw, j, bpos, pat))
  {
    if bpos + 1 < |value| {
      ConsStep(value, bw, j, bpos, pat, bw <= 32 * |value|, ConstLoop(value, bw, j + 1, bpos + 1, value[bpos + 1] as nat));
    }
  }

  /** The corrected step within a word. */
  lemma CorrectShift(value: seq<bv32>, bw: nat, j: nat, bpos: nat, pat: nat)
    requires j + 1 < bw && LoopState(value, j, bpos, pat) && j % 32 != 31
    requires ResultOk(value, bw, j + 1, bw <= 32 * |value|, ConstLoop(value, bw, j + 1, bpos, pat / 2))
    ensures ResultOk(value, bw, j, bw <= 32 * |value|, ConstLoop(value, bw, j, bpos, pat))
  {
    ConsStep(value, bw, j, bpos, pat, bw <= 32 * |value|, ConstLoop(value, bw, j + 1, bpos, pat / 2));
  }

  /** Corrected: a `bw`-bit constant held in `ceil(bw / 32)` words
      converts, bit `j` taken from bit `j % 32` of word `j / 32`. */
  lemma ConstBitsCorrect(value: seq<bv32>, bw: nat)
    ensures var r := ConstBits(value, bw);
            && (r.Some? <==> bw <= 32 * |value|)
            && (r.Some? ==> r.value == ConstBitsRef(value, bw))
  {
    if bw > 0 && |value| > 0 {
      ConstLoopSpec(value, bw, 0, 0, value[0] as nat);
    }
  }

  // ---------------------------------------------------------------------
  // The topological queue
  // ---------------------------------------------------------------------

  /** The node types of the multi-valued network that matter here; every
      operator node is `Logic`. */
  datatype NodeType = Input | Output | Inout | Dff | Latch | Const | Logic

  /** The elements of a sequence. */
  function Elems<T>(s: seq<T>): set<T> {
    set x | x in s
  }

  /** A node with the source node of each of its input pins. */
  datatype Node = Node(kind: NodeType, inputs: seq<nat>)

  /** The network: node `i` has id `i`. */
  predicate GraphOk(g: seq<Node>) {
    forall i, k :: 0 <= i < |g| && 0 <= k < |g[i].inputs| ==> g[i].inputs[k] < |g|
  }

  /** Node types `enqueue` never queues: their values exist before the
      logic is built. */
  predicate Sequential(t: NodeType) {
    t == Dff || t == Latch || t == Const || t == Output || t == Inout
  }

  /** Every input of `n` has its source marked. */
  predicate InputsMarked(g: seq<Node>, n: nat, mark: set<nat>)
    requires n < |g|
  {
    forall k :: 0 <= k < |g[n].inputs| ==> g[n].inputs[k] in mark
  }

  /** Whether `enqueue` queues fanout `n` under `mark`. */
  predicate Ready(g: seq<Node>, n: nat, mark: set<nat>)
    requires n < |g|
  {
    !Sequential(g[n].kind) && n !in mark && InputsMarked(g, n, mark)
  }

  /** The inner input loop: the first unmarked input, if any. */
  method AllInputsMarked(g: seq<Node>, n: nat, mark: set<nat>) returns (marked: bool)
    requires n < |g|
    ensures marked <==> InputsMarked(g, n, mark)
  {
    marked := true;
    var i := 0;
    while i < |g[n].inputs|
      invariant 0 <= i <= |g[n].inputs|
      invariant forall k :: 0 <= k < i ==> g[n].inputs[k] in mark
    {
      if g[n].inputs[i] !in mark {
        marked := false;
        return;
      }
      i := i + 1;
    }
  }

  /** `enqueue(node0)`: every fanout of `node0` that is ready, checked in
      fanout order, is marked and appended to the queue. */
  method Enqueue(g: seq<Node>, fanouts: seq<nat>, queue: seq<nat>, mark: set<nat>)
    returns (queue': seq<nat>, mark': set<nat>)
    requires GraphOk(g) && forall i :: 0 <= i < |fanouts| ==> fanouts[i] < |g|
    ensures |queue'| >= |queue| && queue'[..|queue|] == queue
    ensures mark' == mark + Elems(queue'[|queue|..])
    ensures forall i :: |queue| <= i < |queue'| ==>
              queue'[i] in fanouts && queue'[i] !in mark && !Sequential(g[queue'[i]].kind)
              && InputsMarked(g, queue'[i], mark')
    ensures NoDup(queue'[|queue|..])
    ensures forall n :: n in fanouts && Ready(g, n, mark) ==> n in queue'[|queue|..]
  {
    queue', mark' := queue, mark;
    var p := 0;
    while p < |fanouts|
      invariant 0 <= p <= |fanouts|
      invariant |queue'| >= |queue| && queue'[..|queue|] == queue
      invariant mark' == mark + Elems(queue'[|queue|..])
      invariant forall i :: |queue| <= i < |queue'| ==>
                  queue'[i] in fanouts[..p] && queue'[i] !in mark && !Sequential(g[queue'[i]].kind)
                  && InputsMarked(g, queue'[i], mark')
      invariant NoDup(queue'[|queue|..])
      invariant forall n :: n in fanouts[..p] && Ready(g, n, mark) ==> n in queue'[|queue|..]
    {
      var n := fanouts[p];
      if !Sequential(g[n].kind) && n !in mark' {
        var marked := AllInputsMarked(g, n, mark');
        if marked {
          EnqueueStep(g, queue, queue', mark, mark', n);
          queue', mark' := queue' + [n], mark' + {n};
        }
      }
      assert fanouts[..p + 1] == fanouts[..p] + [n];
      p := p + 1;
    }
    assert fanouts[..p] == fanouts;
  }

  /** Appending a ready node keeps the queue's tail free of duplicates
      and the marks equal to the queued nodes. */
  lemma EnqueueStep(g: seq<Node>, queue: seq<nat>, q: seq<nat>, mark: set<nat>, m: set<nat>, n: nat)
    requires |q| >= |queue| && q[..|queue|] == queue && n !in m
    requires m == mark + Elems(q[|queue|..])
    requires NoDup(q[|queue|..])
    ensures (q + [n])[..|queue|] == queue
    ensures m + {n} == mark + Elems((q + [n])[|queue|..])
    ensures NoDup((q + [n])[|queue|..]) && (q + [n])[|queue|..] == q[|queue|..] + [n]
  {
    var q' := q + [n];
    assert q'[|queue|..] == q[|queue|..] + [n];
    assert Elems(q'[|queue|..]) == Elems(q[|queue|..]) + {n};
  }

  /** A node the queue holds is marked, so `enqueue` never queues it
      again: over a whole run each node is queued at most once. */
  lemma EnqueueOnce(g: seq<Node>, fanouts: seq<nat>, queue: seq<nat>, mark: set<nat>,
                    queue': seq<nat>, mark': set<nat>)
    requires NoDup(queue) && forall i :: 0 <= i < |queue| ==> queue[i] in mark
    requires |queue'| >= |queue| && queue'[..|queue|] == queue
    requires mark' == mark + Elems(queue'[|queue|..])
    requires forall i :: |queue| <= i < |queue'| ==> queue'[i] !in mark
    requires NoDup(queue'[|queue|..])
    ensures NoDup(queue') && forall i :: 0 <= i < |queue'| ==> queue'[i] in mark'
  {
    forall i, j | 0 <= i < j < |queue'|
      ensures queue'[i] != queue'[j]
    {
      if j < |queue| {
        assert queue'[i] == queue[i] && queue'[j] == queue[j];
      } else if i < |queue| {
        assert queue'[i] == queue[i];
      } else {
        assert queue'[i] == queue'[|queue|..][i - |queue|];
        assert queue'[j] == queue'[|queue|..][j - |queue|];
      }
    }
    forall i | 0 <= i < |queue'|
      ensures queue'[i] in mark'
    {
      if i < |queue| {
        assert queue'[i] == queue[i];
      }
    }
  }

  // ---------------------------------------------------------------------
  // Port bit layout and I/O nodes
  // ---------------------------------------------------------------------

  /** A port reference: a whole node, one bit of it, or a part select
      `[msb:lsb]`. */
  datatype PortRef = Simple(node: nat, width: nat)
                   | BitSelect(node: nat, bit: nat)
                   | PartSelect(node: nat, msb: nat, lsb: nat)

  /** The number of port bits a reference yields; a part select whose
      `msb` is below its `lsb` yields none (the loop `k = lsb; k <= msb`
      does not run). */
  function Width(r: PortRef): nat {
    match r
    case Simple(_, w) => w
    case BitSelect(_, _) => 1
    case PartSelect(_, msb, lsb) => if lsb <= msb then msb - lsb + 1 else 0
  }

  /** The node bit the first port bit of a reference comes from. */
  function Start(r: PortRef): nat {
    match r
    case Simple(_, _) => 0
    case BitSelect(_, b) => b
    case PartSelect(_, _, lsb) => lsb
  }

  /** One `make_io` call: bit `src` of `node` goes to the port bit at the
      call's position in the layout. */
  datatype IoBit = IoBit(node: nat, src: nat)

  /** The port bit where reference `j` starts: the widths before it. */
  function Offset(refs: seq<PortRef>, j: nat): nat
    requires j <= |refs|
  {
    if j == 0 then 0 else Offset(refs, j - 1) + Width(refs[j - 1])
  }

  /** What a reference stands for: bits `Start(r)` on of its node, as
      many as its width. */
  function Expand(r: PortRef): (bits: seq<IoBit>)
    ensures |bits| == Width(r)
    ensures forall t :: 0 <= t < |bits| ==> bits[t] == IoBit(r.node, Start(r) + t)
  {
    seq(Width(r), t requires 0 <= t < Width(r) => IoBit(r.node, Start(r) + t))
  }

  /** The bits of one reference, lowest first, as the three branches of
      the port loop generate them. */
  method RefBits(r: PortRef) returns (bits: seq<IoBit>)
    ensures bits == Expand(r)
  {
    bits := [];
    match r
    case Simple(node, w) =>
      var k := 0;
      while k < w
        invariant k <= w && |bits| == k
        invariant forall t :: 0 <= t < k ==> bits[t] == IoBit(node, t)
      {
        bits := bits + [IoBit(node, k)];
        k := k + 1;
      }
    case BitSelect(node, b) =>
      bits := [IoBit(node, b)];
    case PartSelect(node, msb, lsb) =>
      var k := lsb;
      while k <= msb
        invariant lsb <= k && (lsb <= msb ==> k <= msb + 1) && (msb < lsb ==> k == lsb)
        invariant |bits| == k - lsb
        invariant forall t :: 0 <= t < |bits| ==> bits[t] == IoBit(node, lsb + t)
        decreases msb + 1 - k
      {
        bits := bits + [IoBit(node, k)];
        k := k + 1;
      }
  }

  /** Reference `j` fills port bits `Offset(refs, j)` to
      `Offset(refs, j + 1) - 1` of `bits` with what it stands for. */
  predicate Placed(refs: seq<PortRef>, bits: seq<IoBit>, j: nat)
    requires j < |refs|
  {
    Offset(refs, j) <= Offset(refs, j + 1) <= |bits| && bits[Offset(refs, j)..Offset(refs, j + 1)] == Expand(refs[j])
  }

  /** The port loop: the references' bits in order, the destination bit
      position advancing by one per bit.  Reference `j` fills port bits
      `Offset(refs, j)` to `Offset(refs, j + 1) - 1`. */
  method PortLayout(refs: seq<PortRef>) returns (bits: seq<IoBit>)
    ensures |bits| == Offset(refs, |refs|)
    ensures forall j :: 0 <= j < |refs| ==> Placed(refs, bits, j)
  {
    bits := [];
    var j := 0;
    while j < |refs|
      invariant j <= |refs| && |bits| == Offset(refs, j)
      invariant forall i :: 0 <= i < j ==> Placed(refs, bits, i)
    {
      var more := RefBits(refs[j]);
      LayoutStep(refs, j, bits, more);
      bits := bits + more;
      j := j + 1;
    }
  }

  /** Appending reference `j`'s bits keeps the slices of the references
      before it and adds its own. */
  lemma LayoutStep(refs: seq<PortRef>, j: nat, bits: seq<IoBit>, more: seq<IoBit>)
    requires j < |refs| && |bits| == Offset(refs, j) && more == Expand(refs[j])
    requires forall i :: 0 <= i < j ==> Placed(refs, bits, i)
    ensures |bits + more| == Offset(refs, j + 1)
    ensures forall i :: 0 <= i < j + 1 ==> Placed(refs, bits + more, i)
  {
    var all := bits + more;
    assert all[Offset(refs, j)..Offset(refs, j + 1)] == more;
    forall i | 0 <= i < j
      ensures Placed(refs, all, i)
    {
      assert Placed(refs, bits, i);
      assert all[Offset(refs, i)..Offset(refs, i + 1)] == bits[Offset(refs, i)..Offset(refs, i + 1)];
    }
  }

  /** The kinds of Boolean-network port nodes. */
  datatype PortNodeKind = PortInput | PortOutput

  /** A created port node: its kind and the port bit it drives or reads. */
  datatype PortNode = PortNode(kind: PortNodeKind, port: nat, bit: nat)

  /** The port nodes created so far and the map from (node, bit) of the
      multi-valued network to the index of a created node. */
  datatype IoState = IoState(created: seq<PortNode>, nodeMap: map<IoBit, nat>)

  /** `make_io`: an input gets a port input, an output a port output, an
      inout both (reachable from each other), and the map records the
      input of an inout; other node types create nothing. */
  function MakeIo(st: IoState, t: NodeType, b: IoBit, port: nat, dst: nat): (r: IoState)
    ensures |r.created| >= |st.created| && r.created[..|st.created|] == st.created
  {
    var k := |st.created|;
    match t
    case Input => IoState(st.created + [PortNode(PortInput, port, dst)], st.nodeMap[b := k])
    case Output => IoState(st.created + [PortNode(PortOutput, port, dst)], st.nodeMap[b := k])
    case Inout =>
      IoState(st.created + [PortNode(PortInput, port, dst), PortNode(PortOutput, port, dst)], st.nodeMap[b := k])
    case _ => st
  }

  /** The kind of port node the map must record for a node type. */
  function MappedKind(t: NodeType): PortNodeKind {
    if t == Output then PortOutput else PortInput
  }

  predicate IsPortType(t: NodeType) {
    t == Input || t == Output || t == Inout
  }

  /** The map points at created nodes of the kind the node's type asks
      for. */
  predicate MapOk(g: seq<Node>, st: IoState) {
    forall b :: b in st.nodeMap ==>
      b.node < |g| && IsPortType(g[b.node].kind)
      && st.nodeMap[b] < |st.created| && st.created[st.nodeMap[b]].kind == MappedKind(g[b.node].kind)
  }

  /** `make_io` keeps the map consistent, keeps the nodes created before
      it, and leaves the entries of other bits alone. */
  lemma MakeIoKeeps(g: seq<Node>, st: IoState, b: IoBit, port: nat, dst: nat)
    requires b.node < |g| && MapOk(g, st)
    ensures var r := MakeIo(st, g[b.node].kind, b, port, dst);
            && MapOk(g, r)
            && forall b' :: b' != b && b' in st.nodeMap ==> b' in r.nodeMap && r.nodeMap[b'] == st.nodeMap[b']
  {
  }

  /** For a port type, `make_io` creates one node (two for an inout, an
      input and an output at the same bit) and maps the bit to the input,
      or to the output of an output node; other types create nothing. */
  lemma MakeIoEffect(g: seq<Node>, st: IoState, b: IoBit, port: nat, dst: nat)
    requires b.node < |g|
    ensures var r := MakeIo(st, g[b.node].kind, b, port, dst);
            && (IsPortType(g[b.node].kind) ==>
                  && b in r.nodeMap && r.nodeMap[b] < |r.created|
                  && r.created[r.nodeMap[b]] == PortNode(MappedKind(g[b.node].kind), port, dst)
                  && |r.created| == |st.created| + (if g[b.node].kind == Inout then 2 else 1)
                  && forall i :: |st.created| <= i < |r.created| ==> r.created[i].port == port && r.created[i].bit == dst)
            && (g[b.node].kind == Inout ==> r.created[|st.created| + 1] == PortNode(PortOutput, port, dst))
            && (!IsPortType(g[b.node].kind) ==> r == st)
  {
  }

  /** The I/O nodes of one port: `make_io` over its layout, bit `i` going
      to port bit `i`. */
  function MakePortIo(g: seq<Node>, st: IoState, port: nat, bits: seq<IoBit>): (r: IoState)
    requires forall i :: 0 <= i < |bits| ==> bits[i].node < |g|
  {
    if |bits| == 0 then st
    else MakeIo(MakePortIo(g, st, port, bits[..|bits| - 1]), g[bits[|bits| - 1].node].kind, bits[|bits| - 1], port, |bits| - 1)
  }

  /** Bit `i` of the layout, if its node is port-typed, is mapped to a
      created node of the right kind on `port`, at a position where the
      layout holds that bit. */
  predicate BitMapped(g: seq<Node>, st: IoState, port: nat, bits: seq<IoBit>, i: nat)
    requires i < |bits| && bits[i].node < |g|
  {
    IsPortType(g[bits[i].node].kind) ==>
      && bits[i] in st.nodeMap && st.nodeMap[bits[i]] < |st.created|
      && var pn := st.created[st.nodeMap[bits[i]]];
         pn.port == port && pn.kind == MappedKind(g[bits[i].node].kind)
         && pn.bit < |bits| && bits[pn.bit] == bits[i]
  }

  /** After a port's I/O nodes are made, every bit of a port-typed node
      in the layout is mapped to a node of the right kind on that port, at
      a position where the layout holds that bit; the map stays
      consistent. */
  lemma {:induction false} MakePortIoMaps(g: seq<Node>, st: IoState, port: nat, bits: seq<IoBit>)
    requires forall i :: 0 <= i < |bits| ==> bits[i].node < |g|
    requires MapOk(g, st)
    ensures var r := MakePortIo(g, st, port, bits);
            && MapOk(g, r)
            && forall i :: 0 <= i < |bits| ==> BitMapped(g, r, port, bits, i)
  {
    if |bits| > 0 {
      var pre := bits[..|bits| - 1];
      var last := bits[|bits| - 1];
      MakePortIoMaps(g, st, port, pre);
      var mid := MakePortIo(g, st, port, pre);
      MakeIoKeeps(g, mid, last, port, |bits| - 1);
      MakeIoEffect(g, mid, last, port, |bits| - 1);
      var r := MakeIo(mid, g[last.node].kind, last, port, |bits| - 1);
      assert r == MakePortIo(g, st, port, bits);
      forall i | 0 <= i < |bits|
        ensures BitMapped(g, r, port, bits, i)
      {
        if bits[i] != last {
          assert BitMapped(g, mid, port, pre, i);
          KeepMapped(g, mid, r, port, bits, i);
        }
      }
    }
  }

  /** An earlier bit's entry survives a later `make_io` for another bit. */
  lemma KeepMapped(g: seq<Node>, mid: IoState, r: IoState, port: nat, bits: seq<IoBit>, i: nat)
    requires 0 < |bits| && i < |bits| - 1 && forall k :: 0 <= k < |bits| ==> bits[k].node < |g|
    requires BitMapped(g, mid, port, bits[..|bits| - 1], i)
    requires |r.created| >= |mid.created| && r.created[..|mid.created|] == mid.created
    requires bits[i] in mid.nodeMap ==> bits[i] in r.nodeMap && r.nodeMap[bits[i]] == mid.nodeMap[bits[i]]
    ensures BitMapped(g, r, port, bits, i)
  {
    var pre := bits[..|bits| - 1];
    assert pre[i] == bits[i];
    if IsPortType(g[bits[i].node].kind) {
      var k := mid.nodeMap[bits[i]];
      assert r.created[k] == r.created[..|mid.created|][k] == mid.created[k];
      assert pre[mid.created[k].bit] == bits[mid.created[k].bit];
    }
  }

  // ---------------------------------------------------------------------
  // Asynchronous set and reset of a flip-flop
  // ---------------------------------------------------------------------

  /** The number of (control, value) pairs of a flip-flop with `n`
      inputs: data and clock come first. */
  function PairCount(n: nat): nat
    requires n >= 2
  {
    (n - 2) / 2
  }

  /** Pair `k` has its control at input `2k + 2` and its value at
      `2k + 3`: every pair lies past data and clock, inside the inputs, and
      no two pairs share an input. */
  lemma PairPins(n: nat, k: nat, k': nat)
    requires n >= 2 && k < PairCount(n) && k' < PairCount(n)
    ensures 2 <= 2 * k + 2 && 2 * k + 3 < n
    ensures k != k' ==> 2 * k + 2 != 2 * k' + 2 && 2 * k + 3 != 2 * k' + 3 && 2 * k + 2 != 2 * k' + 3
  {
  }

  /** The first active control among the first `k`: pairs earlier in the
      input list take priority. */
  function FirstActive(ctrl: seq<bool>, k: nat): (r: Option<nat>)
    requires k <= |ctrl|
    ensures r.Some? ==> r.value < k && ctrl[r.value] && forall i :: 0 <= i < r.value ==> !ctrl[i]
    ensures r.None? ==> forall i :: 0 <= i < k ==> !ctrl[i]
  {
    if k == 0 then None
    else
      var f := FirstActive(ctrl, k - 1);
      if f.Some? then f else if ctrl[k - 1] then Some(k - 1) else None
  }

  /** One pair applied to every bit: `set[j] |= cond & val[j]` and
      `reset[j] |= cond & ~val[j]`. */
  method OrInPair(setOn: seq<bool>, resetOn: seq<bool>, cond: bool, val: seq<bool>)
    returns (setOn': seq<bool>, resetOn': seq<bool>)
    requires |setOn| == |resetOn| == |val|
    ensures |setOn'| == |resetOn'| == |setOn|
    ensures forall j :: 0 <= j < |setOn| ==> setOn'[j] == (setOn[j] || (cond && val[j]))
    ensures forall j :: 0 <= j < |setOn| ==> resetOn'[j] == (resetOn[j] || (cond && !val[j]))
  {
    setOn', resetOn' := setOn, resetOn;
    var j := 0;
    while j < |setOn|
      invariant j <= |setOn| && |setOn'| == |resetOn'| == |setOn|
      invariant forall i :: 0 <= i < j ==> setOn'[i] == (setOn[i] || (cond && val[i]))
      invariant forall i :: j <= i < |setOn| ==> setOn'[i] == setOn[i]
      invariant forall i :: 0 <= i < j ==> resetOn'[i] == (resetOn[i] || (cond && !val[i]))
      invariant forall i :: j <= i < |setOn| ==> resetOn'[i] == resetOn[i]
    {
      setOn' := setOn'[j := setOn'[j] || (cond && val[j])];
      resetOn' := resetOn'[j := resetOn'[j] || (cond && !val[j])];
      j := j + 1;
    }
  }

  /** The set and reset functions of a `bw`-bit flip-flop, evaluated under
      one assignment of its control and value inputs: `cond_k` is
      `mask_k & ctrl_k` with `mask_0 = 1` and `mask_{k+1} = mask_k &
      ~ctrl_k`.  The first active control decides: bit `j` is set when its
      value bit is 1 and reset when it is 0, and with no active control
      neither; so set and reset are never both on. */
  method AsyncSetReset(ctrl: seq<bool>, vals: seq<seq<bool>>, bw: nat)
    returns (setOn: seq<bool>, resetOn: seq<bool>)
    requires |vals| == |ctrl| && forall k :: 0 <= k < |vals| ==> |vals[k]| == bw
    ensures |setOn| == |resetOn| == bw
    ensures forall j :: 0 <= j < bw ==>
              var f := FirstActive(ctrl, |ctrl|);
              && (setOn[j] <==> f.Some? && vals[f.value][j])
              && (resetOn[j] <==> f.Some? && !vals[f.value][j])
    ensures forall j :: 0 <= j < bw ==> !(setOn[j] && resetOn[j])
  {
    setOn := seq(bw, _ => false);
    resetOn := seq(bw, _ => false);
    var mask := true;
    var k := 0;
    while k < |ctrl|
      invariant k <= |ctrl| && |setOn| == |resetOn| == bw
      invariant mask <==> FirstActive(ctrl, k).None?
      invariant forall j :: 0 <= j < bw ==>
                  var f := FirstActive(ctrl, k);
                  && (setOn[j] <==> f.Some? && vals[f.value][j])
                  && (resetOn[j] <==> f.Some? && !vals[f.value][j])
    {
      var cond := mask && ctrl[k];
      mask := mask && !ctrl[k];
      setOn, resetOn := OrInPair(setOn, resetOn, cond, vals[k]);
      k := k + 1;
    }
  }
}
