/** The clause encodings `SatEngine` (satpg dtpg) hands to its SAT solver
    and its solver-statistics arithmetic.  A clause is a sequence of
    literals; an assignment gives every variable a value. */
module SatCnf {
  import opened Base

  type Var = nat

  /** `Literal(var, neg)`: the variable, or its negation when `neg`. */
  datatype Lit = Lit(v: Var, neg: bool)

  type Clause = seq<Lit>

  type Assignment = Var -> bool

  /** `~l`. */
  function Neg(l: Lit): Lit {
    Lit(l.v, !l.neg)
  }

  predicate LitTrue(a: Assignment, l: Lit) {
    a(l.v) != l.neg
  }

  predicate ClauseSat(a: Assignment, c: Clause) {
    exists i :: 0 <= i < |c| && LitTrue(a, c[i])
  }

  predicate CnfSat(a: Assignment, cs: seq<Clause>) {
    forall j :: 0 <= j < |cs| ==> ClauseSat(a, cs[j])
  }

  lemma CnfSatAppend(a: Assignment, cs: seq<Clause>, ds: seq<Clause>)
    ensures CnfSat(a, cs + ds) <==> CnfSat(a, cs) && CnfSat(a, ds)
  {
    if CnfSat(a, cs) && CnfSat(a, ds) {
      forall j | 0 <= j < |cs + ds| ensures ClauseSat(a, (cs + ds)[j]) {
        if j < |cs| {
          assert (cs + ds)[j] == cs[j];
        } else {
          assert (cs + ds)[j] == ds[j - |cs|];
        }
      }
    }
    if CnfSat(a, cs + ds) {
      forall j | 0 <= j < |cs| ensures ClauseSat(a, cs[j]) {
        assert (cs + ds)[j] == cs[j];
      }
      forall j | 0 <= j < |ds| ensures ClauseSat(a, ds[j]) {
        assert (cs + ds)[|cs| + j] == ds[j];
      }
    }
  }

  // ---------------------------------------------------------------------
  // fault insertion

  /** `make_flt_cnf(solver, ivar, fvar, ovar, vval)`: the output follows the
      input unless the fault variable forces it to the stuck value. */
  function FltCnf(i: Var, f: Var, o: Var, vval: int): (cs: seq<Clause>)
    ensures |cs| == 3
  {
    var l0, l1, l2 := Lit(i, false), Lit(f, false), Lit(o, false);
    if vval == 0 then
      [[l0, Neg(l2)], [Neg(l1), Neg(l2)], [Neg(l0), l1, l2]]
    else
      [[Neg(l0), l2], [Neg(l1), l2], [l0, l1, Neg(l2)]]
  }

  /** The three clauses hold exactly when the output is the input with the
      fault applied: stuck-at-0 masks it, stuck-at-1 forces it. */
  lemma FltCnfSound(a: Assignment, i: Var, f: Var, o: Var, vval: int)
    ensures CnfSat(a, FltCnf(i, f, o, vval)) <==>
            if vval == 0 then a(o) == (a(i) && !a(f)) else a(o) == (a(i) || a(f))
  {
    var cs := FltCnf(i, f, o, vval);
    if CnfSat(a, cs) {
      assert ClauseSat(a, cs[0]) && ClauseSat(a, cs[1]) && ClauseSat(a, cs[2]);
    }
    if vval == 0 {
      if a(o) == (a(i) && !a(f)) {
        if a(o) {
          assert LitTrue(a, cs[0][0]) && LitTrue(a, cs[1][0]) && LitTrue(a, cs[2][2]);
        } else if a(i) {
          assert LitTrue(a, cs[0][1]) && LitTrue(a, cs[1][1]) && LitTrue(a, cs[2][1]);
        } else {
          assert LitTrue(a, cs[0][1]) && LitTrue(a, cs[1][1]) && LitTrue(a, cs[2][0]);
        }
      }
    } else {
      if a(o) == (a(i) || a(f)) {
        if a(o) {
          assert LitTrue(a, cs[0][1]) && LitTrue(a, cs[1][1]);
          if a(i) { assert LitTrue(a, cs[2][0]); } else { assert LitTrue(a, cs[2][1]); }
        } else {
          assert LitTrue(a, cs[0][0]) && LitTrue(a, cs[1][0]) && LitTrue(a, cs[2][2]);
        }
      }
    }
  }

  // ---------------------------------------------------------------------
  // gates

  /** The gate types `make_node_cnf` meets; the ones it has no case for end
      in `assert_not_reached`. */
  datatype GateType = Const0 | Const1 | Buff | Not | And | Nand | Or | Nor | Xor | Xnor | Cplx

  /** A node handed to `make_node_cnf`: a primary input, a primary output,
      or a gate. */
  datatype NodeKind = InputNode | OutputNode | GateNode(t: GateType)

  /** The input values seen through an assignment. */
  function Values(a: Assignment, ins: seq<Var>): (vs: seq<bool>)
    ensures |vs| == |ins| && forall k :: 0 <= k < |ins| ==> vs[k] == a(ins[k])
  {
    seq(|ins|, k requires 0 <= k < |ins| => a(ins[k]))
  }

  /** What each node computes from its input values. */
  function NodeFun(k: NodeKind, vs: seq<bool>): (r: Option<bool>)
    requires k.OutputNode? || (k.GateNode? && (k.t.Buff? || k.t.Not?)) ==> |vs| >= 1
  {
    match k
    case InputNode => None
    case OutputNode => Some(vs[0])
    case GateNode(t) =>
      match t
      case Buff => Some(vs[0])
      case Not => Some(!vs[0])
      case And => Some(forall i :: 0 <= i < |vs| ==> vs[i])
      case Nand => Some(!(forall i :: 0 <= i < |vs| ==> vs[i]))
      case Or => Some(exists i :: 0 <= i < |vs| && vs[i])
      case Nor => Some(!(exists i :: 0 <= i < |vs| && vs[i]))
      case Xor => Some(Parity(vs))
      case Xnor => Some(!Parity(vs))
      case _ => None
  }

  /** The AND family: one wide clause and one two-literal clause per input.
      `inInv` and `outInv` select AND (false, false), NAND (false, true),
      OR (true, true) and NOR (true, false). */
  function AndFamily(ins: seq<Var>, o: Var, inInv: bool, outInv: bool): (cs: seq<Clause>)
    ensures |cs| == |ins| + 1
  {
    [seq(|ins|, k requires 0 <= k < |ins| => Lit(ins[k], !inInv)) + [Lit(o, outInv)]]
    + seq(|ins|, k requires 0 <= k < |ins| => [Lit(ins[k], inInv), Lit(o, !outInv)])
  }

  /** The AND-family clauses hold exactly when the (possibly inverted)
      output is the conjunction of the (possibly inverted) inputs. */
  lemma AndFamilySound(a: Assignment, ins: seq<Var>, o: Var, inInv: bool, outInv: bool)
    ensures CnfSat(a, AndFamily(ins, o, inInv, outInv)) <==>
            ((a(o) != outInv) <==> forall k :: 0 <= k < |ins| ==> a(ins[k]) != inInv)
  {
    var cs := AndFamily(ins, o, inInv, outInv);
    var wide := cs[0];
    assert |wide| == |ins| + 1;
    var all := forall k :: 0 <= k < |ins| ==> a(ins[k]) != inInv;
    if CnfSat(a, cs) {
      if a(o) != outInv {
        forall k | 0 <= k < |ins| ensures a(ins[k]) != inInv {
          assert ClauseSat(a, cs[k + 1]);
          assert cs[k + 1] == [Lit(ins[k], inInv), Lit(o, !outInv)];
        }
      }
    }
    if (a(o) != outInv) <==> all {
      forall j | 0 <= j < |cs| ensures ClauseSat(a, cs[j]) {
        if j == 0 {
          if a(o) != outInv {
            assert LitTrue(a, wide[|ins|]);
          } else {
            var k :| 0 <= k < |ins| && a(ins[k]) == inInv;
            assert LitTrue(a, wide[k]);
          }
        } else {
          var c := cs[j];
          assert c == [Lit(ins[j - 1], inInv), Lit(o, !outInv)];
          if a(o) != outInv {
            assert LitTrue(a, c[0]);
          } else {
            assert LitTrue(a, c[1]);
          }
        }
      }
    }
  }

  /** Bit `i` of `p`: `p & (1U << i)`. */
  predicate Bit(p: nat, i: nat) {
    if i == 0 then p % 2 == 1 else Bit(p / 2, i - 1)
  }

  /** The number of clear bits among the low `n` bits of `p`: the counter
      `c` of the XOR loop. */
  function ClearBits(p: nat, n: nat): nat {
    if n == 0 then 0 else ClearBits(p, n - 1) + (if Bit(p, n - 1) then 0 else 1)
  }

  /** The clause for input pattern `p`: input `i` appears positive when bit
      `i` of `p` is set, and the output literal is chosen by the parity of
      the clear bits.  It rules out exactly one input assignment together
      with the wrong output value. */
  function XorClause(ins: seq<Var>, o: Var, p: nat, xnor: bool): (c: Clause)
    ensures |c| == |ins| + 1
  {
    seq(|ins|, i requires 0 <= i < |ins| => Lit(ins[i], !Bit(p, i)))
    + [Lit(o, (ClearBits(p, |ins|) % 2 == 0) != xnor)]
  }

  /** One clause per pattern `p` below `2^ni`. */
  function XorClauses(ins: seq<Var>, o: Var, xnor: bool): (cs: seq<Clause>)
    ensures |cs| == Pow2(|ins|)
  {
    seq(Pow2(|ins|), p requires 0 <= p < Pow2(|ins|) => XorClause(ins, o, p, xnor))
  }

  /** The pattern whose bit `i` is set exactly when `bits[i]` holds. */
  function Encode(bits: seq<bool>): (p: nat)
    ensures p < Pow2(|bits|)
  {
    if bits == [] then 0 else (if bits[0] then 1 else 0) + 2 * Encode(bits[1..])
  }

  lemma {:induction false} EncodeBits(bits: seq<bool>, i: nat)
    requires i < |bits|
    ensures Bit(Encode(bits), i) == bits[i]
    decreases i
  {
    var p := Encode(bits);
    assert p / 2 == Encode(bits[1..]);
    if i > 0 {
      EncodeBits(bits[1..], i - 1);
    }
  }

  /** When every input literal of a pattern clause is false, the clear bits
      count the true inputs. */
  lemma {:induction false} ClearBitsCount(vs: seq<bool>, p: nat, n: nat)
    requires n <= |vs|
    requires forall i :: 0 <= i < |vs| ==> vs[i] == !Bit(p, i)
    ensures ClearBits(p, n) == CountTrue(vs[..n])
    decreases n
  {
    if n > 0 {
      ClearBitsCount(vs, p, n - 1);
      assert vs[..n][..n - 1] == vs[..n - 1];
    }
  }

  /** The pattern clauses hold exactly when the output is the parity of the
      inputs (inverted for XNOR). */
  lemma XorClausesSound(a: Assignment, ins: seq<Var>, o: Var, xnor: bool)
    ensures CnfSat(a, XorClauses(ins, o, xnor)) <==> a(o) == (Parity(Values(a, ins)) != xnor)
  {
    var cs := XorClauses(ins, o, xnor);
    var vs := Values(a, ins);
    assert vs[..|vs|] == vs;
    if CnfSat(a, cs) {
      // the clause of the pattern that matches the inputs
      var bits := seq(|ins|, i requires 0 <= i < |ins| => !vs[i]);
      var p := Encode(bits);
      forall i | 0 <= i < |ins| ensures vs[i] == !Bit(p, i) {
        EncodeBits(bits, i);
      }
      ClearBitsCount(vs, p, |ins|);
      var c := cs[p];
      assert c == XorClause(ins, o, p, xnor);
      assert ClauseSat(a, c);
    }
    if a(o) == (Parity(vs) != xnor) {
      forall p | 0 <= p < |cs| ensures ClauseSat(a, cs[p]) {
        var c := XorClause(ins, o, p, xnor);
        assert cs[p] == c;
        if forall i :: 0 <= i < |ins| ==> vs[i] == !Bit(p, i) {
          ClearBitsCount(vs, p, |ins|);
          assert LitTrue(a, c[|ins|]);
        } else {
          var i :| 0 <= i < |ins| && vs[i] != !Bit(p, i);
          assert c[i] == Lit(ins[i], !Bit(p, i));
          assert LitTrue(a, c[i]);
        }
      }
    }
  }

  /** `make_node_cnf(solver, node, litmap)`: the clauses relating a node's
      output variable to its input variables; `None` for the gate types the
      source treats as unreachable. */
  function NodeCnf(k: NodeKind, ins: seq<Var>, o: Var): (r: Option<seq<Clause>>)
    requires k.OutputNode? || (k.GateNode? && (k.t.Buff? || k.t.Not?)) ==> |ins| >= 1
  {
    match k
    case InputNode => Some([])
    case OutputNode => Some([[Lit(ins[0], false), Lit(o, true)], [Lit(ins[0], true), Lit(o, false)]])
    case GateNode(t) =>
      match t
      case Buff => Some([[Lit(ins[0], false), Lit(o, true)], [Lit(ins[0], true), Lit(o, false)]])
      case Not => Some([[Lit(ins[0], false), Lit(o, false)], [Lit(ins[0], true), Lit(o, true)]])
      case And => Some(AndFamily(ins, o, false, false))
      case Nand => Some(AndFamily(ins, o, false, true))
      case Or => Some(AndFamily(ins, o, true, true))
      case Nor => Some(AndFamily(ins, o, true, false))
      case Xor =>
        if |ins| == 2 then
          Some([[Lit(ins[0], true), Lit(ins[1], false), Lit(o, false)],
                [Lit(ins[0], false), Lit(ins[1], true), Lit(o, false)],
                [Lit(ins[0], false), Lit(ins[1], false), Lit(o, true)],
                [Lit(ins[0], true), Lit(ins[1], true), Lit(o, true)]])
        else Some(XorClauses(ins, o, false))
      case Xnor =>
        if |ins| == 2 then
          Some([[Lit(ins[0], true), Lit(ins[1], false), Lit(o, true)],
                [Lit(ins[0], false), Lit(ins[1], true), Lit(o, true)],
                [Lit(ins[0], false), Lit(ins[1], false), Lit(o, false)],
                [Lit(ins[0], true), Lit(ins[1], true), Lit(o, false)]])
        else Some(XorClauses(ins, o, true))
      case _ => None
  }

  /** Two-literal equivalence clauses. */
  lemma PairSound(a: Assignment, x: Var, o: Var, inv: bool)
    ensures CnfSat(a, [[Lit(x, false), Lit(o, !inv)], [Lit(x, true), Lit(o, inv)]]) <==> a(o) == (a(x) != inv)
  {
    var cs := [[Lit(x, false), Lit(o, !inv)], [Lit(x, true), Lit(o, inv)]];
    if a(o) == (a(x) != inv) {
      if a(x) {
        assert LitTrue(a, cs[0][0]) && LitTrue(a, cs[1][1]);
      } else {
        assert LitTrue(a, cs[0][1]) && LitTrue(a, cs[1][0]);
      }
    }
    if CnfSat(a, cs) {
      assert ClauseSat(a, cs[0]) && ClauseSat(a, cs[1]);
    }
  }

  /** The two-input XOR clauses agree with the pattern clauses. */
  lemma Xor2Sound(a: Assignment, x: Var, y: Var, o: Var, xnor: bool)
    ensures var cs := [[Lit(x, true), Lit(y, false), Lit(o, xnor)],
                       [Lit(x, false), Lit(y, true), Lit(o, xnor)],
                       [Lit(x, false), Lit(y, false), Lit(o, !xnor)],
                       [Lit(x, true), Lit(y, true), Lit(o, !xnor)]];
            CnfSat(a, cs) <==> a(o) == ((a(x) != a(y)) != xnor)
  {
    var cs := [[Lit(x, true), Lit(y, false), Lit(o, xnor)],
               [Lit(x, false), Lit(y, true), Lit(o, xnor)],
               [Lit(x, false), Lit(y, false), Lit(o, !xnor)],
               [Lit(x, true), Lit(y, true), Lit(o, !xnor)]];
    if CnfSat(a, cs) {
      assert ClauseSat(a, cs[0]) && ClauseSat(a, cs[1]) && ClauseSat(a, cs[2]) && ClauseSat(a, cs[3]);
    }
    if a(o) == ((a(x) != a(y)) != xnor) {
      forall j | 0 <= j < 4 ensures ClauseSat(a, cs[j]) {
        var c := cs[j];
        if LitTrue(a, c[0]) {
        } else if LitTrue(a, c[1]) {
        } else {
          assert LitTrue(a, c[2]);
        }
      }
    }
  }

  /** Every encoded node: the clauses hold exactly when the output variable
      carries what the node computes from its input variables; an input
      node gets no clauses. */
  lemma NodeCnfSound(a: Assignment, k: NodeKind, ins: seq<Var>, o: Var)
    requires k.OutputNode? || (k.GateNode? && (k.t.Buff? || k.t.Not?)) ==> |ins| >= 1
    ensures NodeCnf(k, ins, o).Some? <==> NodeFun(k, Values(a, ins)).Some? || k.InputNode?
    ensures k.InputNode? ==> NodeCnf(k, ins, o) == Some([])
    ensures NodeFun(k, Values(a, ins)).Some? ==>
              (CnfSat(a, NodeCnf(k, ins, o).value) <==> a(o) == NodeFun(k, Values(a, ins)).value)
  {
    var vs := Values(a, ins);
    match k
    case InputNode =>
    case OutputNode => PairSound(a, ins[0], o, false);
    case GateNode(t) =>
      match t
      case Buff => PairSound(a, ins[0], o, false);
      case Not => PairSound(a, ins[0], o, true);
      case And => AndFamilySound(a, ins, o, false, false);
      case Nand => AndFamilySound(a, ins, o, false, true);
      case Or =>
        AndFamilySound(a, ins, o, true, true);
      case Nor =>
        AndFamilySound(a, ins, o, true, false);
      case Xor =>
        if |ins| == 2 {
          Xor2Sound(a, ins[0], ins[1], o, false);
          XorPair(vs);
        } else {
          XorClausesSound(a, ins, o, false);
        }
      case Xnor =>
        if |ins| == 2 {
          Xor2Sound(a, ins[0], ins[1], o, true);
          XorPair(vs);
        } else {
          XorClausesSound(a, ins, o, true);
        }
      case _ =>
  }

  lemma XorPair(vs: seq<bool>)
    requires |vs| == 2
    ensures Parity(vs) == (vs[0] != vs[1])
  {
    assert vs[..1][..0] == [];
    assert CountTrue(vs[..1]) == (if vs[0] then 1 else 0);
    assert vs[..|vs| - 1] == vs[..1];
  }

  // ---------------------------------------------------------------------
  // statistics

  /** Counters of `SatStats` wrap at 2^64. */
  const StatMod: nat := 0x1_0000_0000_0000_0000

  type Counter = x: nat | x < StatMod

  datatype SatStats = SatStats(
    restart: Counter, varNum: Counter, constrClauseNum: Counter, constrLitNum: Counter,
    learntClauseNum: Counter, learntLitNum: Counter, conflictNum: Counter,
    decisionNum: Counter, propagationNum: Counter)

  function Add(x: Counter, y: Counter): Counter {
    (x + y) % StatMod
  }

  function Sub(x: Counter, y: Counter): Counter {
    (x - y) % StatMod
  }

  /** `clear_sat_stats`. */
  const Zero := SatStats(0, 0, 0, 0, 0, 0, 0, 0, 0)

  /** `add_sat_stats(dst, src)`: field-wise `+=`. */
  function AddStats(d: SatStats, s: SatStats): SatStats {
    SatStats(Add(d.restart, s.restart), Add(d.varNum, s.varNum),
             Add(d.constrClauseNum, s.constrClauseNum), Add(d.constrLitNum, s.constrLitNum),
             Add(d.learntClauseNum, s.learntClauseNum), Add(d.learntLitNum, s.learntLitNum),
             Add(d.conflictNum, s.conflictNum), Add(d.decisionNum, s.decisionNum),
             Add(d.propagationNum, s.propagationNum))
  }

  /** `sub_sat_stats(dst, src)`: field-wise `-=`. */
  function SubStats(d: SatStats, s: SatStats): SatStats {
    SatStats(Sub(d.restart, s.restart), Sub(d.varNum, s.varNum),
             Sub(d.constrClauseNum, s.constrClauseNum), Sub(d.constrLitNum, s.constrLitNum),
             Sub(d.learntClauseNum, s.learntClauseNum), Sub(d.learntLitNum, s.learntLitNum),
             Sub(d.conflictNum, s.conflictNum), Sub(d.decisionNum, s.decisionNum),
             Sub(d.propagationNum, s.propagationNum))
  }

  lemma SubAdd(x: Counter, y: Counter)
    ensures Sub(Add(x, y), y) == x && Add(Sub(x, y), y) == x
  {
    if x + y >= StatMod {
      assert Add(x, y) == x + y - StatMod;
    }
    if x < y {
      assert Sub(x, y) == x - y + StatMod;
    }
  }

  /** Subtracting what was added restores every field, wrap-around included;
      and the other way round. */
  lemma SubAddStats(d: SatStats, s: SatStats)
    ensures SubStats(AddStats(d, s), s) == d
    ensures AddStats(SubStats(d, s), s) == d
  {
    SubAdd(d.restart, s.restart);
    SubAdd(d.varNum, s.varNum);
    SubAdd(d.constrClauseNum, s.constrClauseNum);
    SubAdd(d.constrLitNum, s.constrLitNum);
    SubAdd(d.learntClauseNum, s.learntClauseNum);
    SubAdd(d.learntLitNum, s.learntLitNum);
    SubAdd(d.conflictNum, s.conflictNum);
    SubAdd(d.decisionNum, s.decisionNum);
    SubAdd(d.propagationNum, s.propagationNum);
  }

  /** Adding the cleared statistics changes nothing. */
  lemma AddZero(d: SatStats)
    ensures AddStats(d, Zero) == d
  {
  }

  /** The field update of `max_sat_stats` as written: `+=` when the source
      is larger. */
  function MaxFieldAsWritten(x: Counter, y: Counter): Counter {
    if x < y then Add(x, y) else x
  }

  /** `m` is the larger of `x` and `y`: an upper bound of both that is one
      of them. */
  predicate IsMaxOf(m: nat, x: nat, y: nat) {
    m >= x && m >= y && (m == x || m == y)
  }

  function MaxField(x: Counter, y: Counter): (m: Counter)
    ensures IsMaxOf(m, x, y)
  {
    if x < y then y else x
  }

  /** `max_sat_stats(dst, src)` as written: the restart count takes the
      larger value, every other field adds the source when it is larger. */
  function MaxStatsAsWritten(d: SatStats, s: SatStats): SatStats {
    SatStats(MaxField(d.restart, s.restart), MaxFieldAsWritten(d.varNum, s.varNum),
             MaxFieldAsWritten(d.constrClauseNum, s.constrClauseNum),
             MaxFieldAsWritten(d.constrLitNum, s.constrLitNum),
             MaxFieldAsWritten(d.learntClauseNum, s.learntClauseNum),
             MaxFieldAsWritten(d.learntLitNum, s.learntLitNum),
             MaxFieldAsWritten(d.conflictNum, s.conflictNum),
             MaxFieldAsWritten(d.decisionNum, s.decisionNum),
             MaxFieldAsWritten(d.propagationNum, s.propagationNum))
  }

  /** `max_sat_stats` with every field taking the larger value. */
  function MaxStats(d: SatStats, s: SatStats): SatStats {
    SatStats(MaxField(d.restart, s.restart), MaxField(d.varNum, s.varNum),
             MaxField(d.constrClauseNum, s.constrClauseNum), MaxField(d.constrLitNum, s.constrLitNum),
             MaxField(d.learntClauseNum, s.learntClauseNum), MaxField(d.learntLitNum, s.learntLitNum),
             MaxField(d.conflictNum, s.conflictNum), MaxField(d.decisionNum, s.decisionNum),
             MaxField(d.propagationNum, s.propagationNum))
  }

  /** As written, a variable count of 1 against 2 becomes 3, above both. */
  lemma MaxStatsAsWrittenOvershoots()
    ensures var d := Zero.(varNum := 1);
            var s := Zero.(varNum := 2);
            MaxStatsAsWritten(d, s).varNum == 3
            && MaxStatsAsWritten(d, s).varNum > d.varNum && MaxStatsAsWritten(d, s).varNum > s.varNum
  {
  }

  /** As written, the result is not even symmetric. */
  lemma MaxStatsAsWrittenNotMax(d: SatStats, s: SatStats)
    requires d.varNum < s.varNum && d.varNum > 0 && d.varNum + s.varNum < StatMod
    ensures MaxStatsAsWritten(d, s).varNum > s.varNum
  {
    assert Add(d.varNum, s.varNum) == d.varNum + s.varNum;
  }

  /** Every field of the corrected merge is an upper bound of both inputs
      and equal to one of them; the merge is symmetric and idempotent. */
  lemma MaxStatsIsMax(d: SatStats, s: SatStats)
    ensures var m := MaxStats(d, s);
            && IsMaxOf(m.restart, d.restart, s.restart)
            && IsMaxOf(m.varNum, d.varNum, s.varNum)
            && IsMaxOf(m.constrClauseNum, d.constrClauseNum, s.constrClauseNum)
            && IsMaxOf(m.constrLitNum, d.constrLitNum, s.constrLitNum)
            && IsMaxOf(m.learntClauseNum, d.learntClauseNum, s.learntClauseNum)
            && IsMaxOf(m.learntLitNum, d.learntLitNum, s.learntLitNum)
            && IsMaxOf(m.conflictNum, d.conflictNum, s.conflictNum)
            && IsMaxOf(m.decisionNum, d.decisionNum, s.decisionNum)
            && IsMaxOf(m.propagationNum, d.propagationNum, s.propagationNum)
    ensures MaxStats(d, s) == MaxStats(s, d)
    ensures MaxStats(d, d) == d
    ensures MaxStats(MaxStats(d, s), s) == MaxStats(d, s)
  {
  }
}
