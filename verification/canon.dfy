/** Signals of the Boolean network and the pure part of `BdNetwork::set_logic`:
    folding input inversions into the function code, folding degenerate
    operands, normalising the output polarity and ordering the operands. */
module Canon {
  import opened Base
  import opened TruthTable

  /** Identity of a node object (the pointer in the source).  The node's
      integer id is a separate, reusable attribute; the canonicaliser orders
      operands by that id, supplied as `id`. */
  type Ref = nat

  /** A node (or null) together with an inversion bit (`BdnNodeHandle`).
      A null handle is a constant: `(null, false)` is 0, `(null, true)` is 1. */
  datatype Handle = Handle(node: Option<Ref>, inv: bool)

  const Zero: Handle := Handle(None, false)
  const One: Handle := Handle(None, true)

  /** A valuation: the set of nodes that carry 1. */
  type Valuation = set<Ref>

  /** Value of a signal under valuation `v`. */
  function HVal(h: Handle, v: Valuation): bool {
    match h.node
    case None => h.inv
    case Some(n) => (n in v) != h.inv
  }

  /** Outcome of canonicalisation: either an existing signal (no gate needed)
      or the canonical key of a gate plus the inversion to put on its output. */
  datatype Canon =
    | Folded(handle: Handle)
    | Gate(fcode: FCode, in0: Ref, in1: Ref, inv: bool)

  /** Value of a canonical outcome under valuation `v`. */
  function CanonVal(c: Canon, v: Valuation): bool {
    match c
    case Folded(h) => HVal(h, v)
    case Gate(g, a, b, inv) => Apply(g, a in v, b in v) != inv
  }

  /** Step 1: the input inversions folded into the code. */
  function FoldInversions(f: FCode, h0: Handle, h1: Handle): (g: FCode)
    ensures forall a, b :: Apply(g, a, b) == Apply(f, a != h0.inv, b != h1.inv)
  {
    var f0 := if h0.inv then InvertInput0(f) else f;
    if h1.inv then InvertInput1(f0) else f0
  }

  /** A literal of `n` or a constant, chosen by the two code bits `lo`
      (output when `n` is 0) and `hi` (output when `n` is 1). */
  function Literal(n: Ref, lo: bool, hi: bool): (h: Handle)
    ensures forall v :: HVal(h, v) == (if n in v then hi else lo)
    ensures h.node.Some? ==> h.node == Some(n)
  {
    if lo then (if hi then One else Handle(Some(n), true))
    else (if hi then Handle(Some(n), false) else Zero)
  }

  /** Steps 1-4 of `set_logic`; `id` gives each node's integer id. */
  function Canonicalize(f: FCode, h0: Handle, h1: Handle, id: Ref -> nat): (r: Canon)
    // a gate is needed exactly for two distinct non-null operands
    ensures r.Gate? <==> h0.node.Some? && h1.node.Some? && h0.node != h1.node
    // two null operands give the constant selected by bit 0 of the folded code
    ensures h0.node.None? && h1.node.None? ==>
              r == Folded(Handle(None, Bit(FoldInversions(f, h0, h1), 0)))
    // a folded outcome only ever mentions one of the operands
    ensures r.Folded? && r.handle.node.Some? ==>
              r.handle.node == h0.node || r.handle.node == h1.node
    // canonical key: normalised polarity, operands ordered by id
    ensures r.Gate? ==> !Bit(r.fcode, 0) && id(r.in0) <= id(r.in1)
    ensures r.Gate? ==>
              if id(h0.node.value) > id(h1.node.value)
              then r.in0 == h1.node.value && r.in1 == h0.node.value
              else r.in0 == h0.node.value && r.in1 == h1.node.value
    ensures r.Gate? ==> r.inv == Bit(FoldInversions(f, h0, h1), 0)
  {
    CanonicalizeFolded(FoldInversions(f, h0, h1), h0.node, h1.node, id)
  }

  /** Steps 2-4 on a code `g` whose input inversions are already folded in. */
  function CanonicalizeFolded(g: FCode, n0: Option<Ref>, n1: Option<Ref>, id: Ref -> nat): (r: Canon)
    ensures r.Gate? <==> n0.Some? && n1.Some? && n0 != n1
    ensures n0.None? && n1.None? ==> r == Folded(Handle(None, Bit(g, 0)))
    ensures r.Folded? && r.handle.node.Some? ==> r.handle.node == n0 || r.handle.node == n1
    ensures r.Gate? ==> !Bit(r.fcode, 0) && id(r.in0) <= id(r.in1)
    ensures r.Gate? ==>
              if id(n0.value) > id(n1.value) then r.in0 == n1.value && r.in1 == n0.value
              else r.in0 == n0.value && r.in1 == n1.value
    ensures r.Gate? ==> r.inv == Bit(g, 0)
  {
    match (n0, n1)
    // step 2: a null operand is the constant 0, a repeated operand is one input
    case (None, None) => Folded(Handle(None, Bit(g, 0)))
    case (None, Some(m1)) => Folded(Literal(m1, Bit(g, 0), Bit(g, 2)))
    case (Some(m0), None) => Folded(Literal(m0, Bit(g, 0), Bit(g, 1)))
    case (Some(m0), Some(m1)) =>
      if m0 == m1 then Folded(Literal(m0, Bit(g, 0), Bit(g, 3)))
      else
        // step 3: output polarity, step 4: operand order
        var g1 := Normalized(g);
        if id(m0) > id(m1) then Gate(SwapInputs(g1), m1, m0, Bit(g, 0))
        else Gate(g1, m0, m1, Bit(g, 0))
  }

  /** The outcome computes the requested function on every valuation. */
  lemma CanonicalizeSound(f: FCode, h0: Handle, h1: Handle, id: Ref -> nat, v: Valuation)
    ensures CanonVal(Canonicalize(f, h0, h1, id), v) == Apply(f, HVal(h0, v), HVal(h1, v))
  {
    var g := FoldInversions(f, h0, h1);
    var a := h0.node.Some? && h0.node.value in v;
    var b := h1.node.Some? && h1.node.value in v;
    assert HVal(h0, v) == (a != h0.inv) && HVal(h1, v) == (b != h1.inv);
    assert Apply(f, HVal(h0, v), HVal(h1, v)) == Apply(g, a, b);
    CanonicalizeFoldedSound(g, h0.node, h1.node, id, v);
  }

  /** Steps 2-4 compute the folded code of the operand nodes, a null operand
      counting as 0. */
  lemma CanonicalizeFoldedSound(g: FCode, n0: Option<Ref>, n1: Option<Ref>, id: Ref -> nat, v: Valuation)
    ensures CanonVal(CanonicalizeFolded(g, n0, n1, id), v)
            == Apply(g, n0.Some? && n0.value in v, n1.Some? && n1.value in v)
  {
    var a := n0.Some? && n0.value in v;
    var b := n1.Some? && n1.value in v;
    var r := CanonicalizeFolded(g, n0, n1, id);
    BitsAreApply(g);
    if n0.Some? && n1.Some? && n0 != n1 {
      var inv := Bit(g, 0);
      var g1 := Normalized(g);
      assert (Apply(g1, a, b) != inv) == Apply(g, a, b);
      if id(n0.value) > id(n1.value) {
        assert r == Gate(SwapInputs(g1), n1.value, n0.value, inv);
      } else {
        assert r == Gate(g1, n0.value, n1.value, inv);
      }
    }
  }

  /** The four bits of a code are its four truth-table rows. */
  lemma BitsAreApply(f: FCode)
    ensures Bit(f, 0) == Apply(f, false, false)
    ensures Bit(f, 1) == Apply(f, true, false)
    ensures Bit(f, 2) == Apply(f, false, true)
    ensures Bit(f, 3) == Apply(f, true, true)
  {
  }

  /** With distinct ids, swapping the two operands (and the code's inputs)
      gives the same canonical gate: the key does not depend on operand order. */
  lemma CanonicalizeCommutes(f: FCode, h0: Handle, h1: Handle, id: Ref -> nat)
    requires h0.node.Some? && h1.node.Some? && h0.node != h1.node
    requires id(h0.node.value) != id(h1.node.value)
    ensures Canonicalize(f, h0, h1, id) == Canonicalize(SwapCode(f), h1, h0, id)
  {
    var r := Canonicalize(f, h0, h1, id);
    var s := Canonicalize(SwapCode(f), h1, h0, id);
    assert r.in0 == s.in0 && r.in1 == s.in1;
    SwappedPolarity(f, h0, h1);
    SwappedCode(f, h0, h1, id);
  }

  /** Output polarity does not depend on operand order. */
  lemma SwappedPolarity(f: FCode, h0: Handle, h1: Handle)
    ensures Bit(FoldInversions(f, h0, h1), 0) == Bit(FoldInversions(SwapCode(f), h1, h0), 0)
  {
    var g := FoldInversions(f, h0, h1);
    var g' := FoldInversions(SwapCode(f), h1, h0);
    BitsAreApply(g);
    BitsAreApply(g');
    assert Apply(g', false, false) == Apply(SwapCode(f), h1.inv, h0.inv);
    assert Apply(g, false, false) == Apply(f, h0.inv, h1.inv);
  }

  /** The canonical code does not depend on operand order. */
  lemma SwappedCode(f: FCode, h0: Handle, h1: Handle, id: Ref -> nat)
    requires h0.node.Some? && h1.node.Some? && h0.node != h1.node
    requires id(h0.node.value) != id(h1.node.value)
    ensures Canonicalize(f, h0, h1, id).fcode == Canonicalize(SwapCode(f), h1, h0, id).fcode
  {
    var m0, m1 := h0.node.value, h1.node.value;
    var g := FoldInversions(f, h0, h1);
    var g' := FoldInversions(SwapCode(f), h1, h0);
    NormalizedCodesSwap(f, h0, h1);
    GateCode(g, m0, m1, id);
    GateCode(g', m1, m0, id);
  }

  /** The normalised folded codes of the two operand orders are each
      other's input swap. */
  lemma NormalizedCodesSwap(f: FCode, h0: Handle, h1: Handle)
    ensures var p := Normalized(FoldInversions(f, h0, h1));
            var q := Normalized(FoldInversions(SwapCode(f), h1, h0));
            SwapInputs(p) == q && SwapInputs(q) == p
  {
    if h0.inv {
      if h1.inv {
      } else {
      }
    } else {
      if h1.inv {
      } else {
      }
    }
  }

  /** Bit 0 of a code cleared by complementing it. */
  function Normalized(g: FCode): (r: FCode)
    ensures !Bit(r, 0)
    ensures forall a, b :: Apply(r, a, b) == (Apply(g, a, b) != Bit(g, 0))
  {
    if Bit(g, 0) then Complement(g) else g
  }

  /** The code of the gate built for two distinct operands. */
  lemma GateCode(g: FCode, m0: Ref, m1: Ref, id: Ref -> nat)
    requires m0 != m1
    ensures CanonicalizeFolded(g, Some(m0), Some(m1), id).fcode
            == if id(m0) > id(m1) then SwapInputs(Normalized(g)) else Normalized(g)
  {
  }

  /** The code of the same function with its inputs exchanged, for any code. */
  function SwapCode(f: FCode): (r: FCode)
    ensures forall a, b :: Apply(r, a, b) == Apply(f, b, a)
  {
    (f & 0x9) | ((f & 2) << 1) | ((f & 4) >> 1)
  }
}
