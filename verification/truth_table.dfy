/** The 4-bit function code of a two-input gate (libym_bdn).

    Bit `a + 2*b` of the code is the gate's output when input 0 carries `a`
    and input 1 carries `b`:  bit 0 = f(0,0), bit 1 = f(1,0), bit 2 = f(0,1),
    bit 3 = f(1,1).  So 0x8 is AND, 0xe is OR and 0x6 is XOR. */
module TruthTable {

  type FCode = bv4

  const AndCode: FCode := 0x8
  const OrCode: FCode := 0xe
  const XorCode: FCode := 0x6

  /** Output of the gate with code `f` on inputs `a` (input 0) and `b` (input 1):
      bit `a + 2*b` of the code. */
  function Apply(f: FCode, a: bool, b: bool): bool {
    if b then (if a then f & 8 != 0 else f & 4 != 0)
    else (if a then f & 2 != 0 else f & 1 != 0)
  }

  /** Bit `i` of the code. */
  function Bit(f: FCode, i: nat): bool
    requires i < 4
  {
    f & [1, 2, 4, 8][i] != 0
  }

  /** The code rewritten for a complemented input 0: bits 0<->1 and 2<->3 swap. */
  function InvertInput0(f: FCode): (r: FCode)
    ensures forall a, b :: Apply(r, a, b) == Apply(f, !a, b)
  {
    ((f & 0x5) << 1) | ((f & 0xa) >> 1)
  }

  /** The code rewritten for a complemented input 1: bits 0<->2 and 1<->3 swap. */
  function InvertInput1(f: FCode): (r: FCode)
    ensures forall a, b :: Apply(r, a, b) == Apply(f, a, !b)
  {
    ((f & 0x3) << 2) | ((f & 0xc) >> 2)
  }

  /** The complemented function (`fcode ^= 0xf`). */
  function Complement(f: FCode): (r: FCode)
    ensures forall a, b :: Apply(r, a, b) == !Apply(f, a, b)
    ensures Bit(r, 0) == !Bit(f, 0)
  {
    f ^ 0xf
  }

  /** The operand swap of the canonicaliser.  It is written for codes whose
      bit 0 is already clear: when exactly one of bits 1 and 2 is set it moves
      that bit to the other position and keeps bit 3. */
  function SwapInputs(f: FCode): (r: FCode)
    requires !Bit(f, 0)
    ensures forall a, b :: Apply(r, a, b) == Apply(f, b, a)
    ensures !Bit(r, 0)
  {
    if f & 2 != 0 then
      if f & 4 == 0 then (f & 8) | 4 else f
    else if f & 4 != 0 then (f & 8) | 2
    else f
  }

  /** Two codes are the same function exactly when they agree on every input. */
  lemma ApplyDetermines(f: FCode, g: FCode)
    requires forall a, b :: Apply(f, a, b) == Apply(g, a, b)
    ensures f == g
  {
    assert Apply(f, false, false) == Apply(g, false, false);
    assert Apply(f, true, false) == Apply(g, true, false);
    assert Apply(f, false, true) == Apply(g, false, true);
    assert Apply(f, true, true) == Apply(g, true, true);
  }
}
