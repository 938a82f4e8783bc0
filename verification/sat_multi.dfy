/** The option handling of the multi-fault SAT engine (`SatEngineMulti2`)
    and the fault-index encoding its `run` uses to find, from a node, the
    faults that sit on it. */
module SatMulti {
  import opened Base

  /** The engine's switches. */
  datatype Options = Options(
    tgGrasp: bool,
    extTgGrasp: bool,
    useDominator: bool,
    useLocalDominator: bool,
    skipThreshold: nat)

  /** What the constructor sets. */
  const Default := Options(true, true, true, false, 3)

  /** The effect of one option name; names the engine does not know leave
      the switches alone. */
  function ApplyOption(o: Options, name: string): (r: Options)
    ensures r.skipThreshold == o.skipThreshold
  {
    if name == "TG-GRASP" then o.(tgGrasp := true, extTgGrasp := false)
    else if name == "EXT-TG-GRASP" then o.(tgGrasp := true, extTgGrasp := true)
    else if name == "NEMESIS" then o.(tgGrasp := false)
    else if name == "DOM" then o.(useLocalDominator := false)
    else if name == "NODOM" then o.(useDominator := false)
    else if name == "LOCALDOM" then o.(useLocalDominator := true)
    else o
  }

  /** `string::find(c, from)`: the first position at or after `from` that
      holds `c`; `None` plays `npos`. */
  function Find(s: string, c: char, from: nat): (r: Option<nat>)
    requires from <= |s|
    ensures r.Some? ==> from <= r.value < |s| && s[r.value] == c
    decreases |s| - from
  {
    if from == |s| then None
    else if s[from] == c then Some(from)
    else Find(s, c, from + 1)
  }

  /** `Find` returns the first match: nothing before it matches, and when
      it finds nothing, nothing from `from` on matches. */
  lemma {:induction false} FindFirst(s: string, c: char, from: nat)
    requires from <= |s|
    ensures var r := Find(s, c, from);
            && (r.Some? ==> forall k :: from <= k < r.value ==> s[k] != c)
            && (r.None? ==> forall k :: from <= k < |s| ==> s[k] != c)
    decreases |s| - from
  {
    if from < |s| && s[from] != c {
      FindFirst(s, c, from + 1);
    }
  }

  /** The loop of `set_option(option_str)` from position `next`: a colon
      right at `next` is skipped, otherwise the text up to the next colon
      (or to the end) is applied, and the scan resumes after that colon. */
  function SetOptionFrom(o: Options, s: string, next: nat): Options
    requires next <= |s|
    decreases |s| - next
  {
    var pos := Find(s, ':', next);
    if pos == Some(next) then SetOptionFrom(o, s, next + 1)
    else
      var o' := ApplyOption(o, if pos.None? then s[next..] else s[next..pos.value]);
      if pos.None? then o' else SetOptionFrom(o', s, pos.value + 1)
  }

  function SetOption(o: Options, s: string): Options {
    SetOptionFrom(o, s, 0)
  }

  /** Reference reading: the maximal colon-free pieces of `s`, left to
      right, empty ones included. */
  function Segments(s: string): (r: seq<string>)
    ensures |r| >= 1
    decreases |s|
  {
    var pos := Find(s, ':', 0);
    if pos.None? then [s] else [s[..pos.value]] + Segments(s[pos.value + 1..])
  }

  /** No piece holds a colon. */
  lemma {:induction false} SegmentsColonFree(s: string)
    ensures forall i, k :: 0 <= i < |Segments(s)| && 0 <= k < |Segments(s)[i]| ==> Segments(s)[i][k] != ':'
    decreases |s|
  {
    var pos := Find(s, ':', 0);
    FindFirst(s, ':', 0);
    if pos.Some? {
      var rest := s[pos.value + 1..];
      SegmentsColonFree(rest);
      var r := Segments(s);
      assert r == [s[..pos.value]] + Segments(rest);
      forall i, k | 0 <= i < |r| && 0 <= k < |r[i]| ensures r[i][k] != ':' {
        if i > 0 {
          assert r[i] == Segments(rest)[i - 1];
        }
      }
    }
  }

  /** The options named in `names`, applied in order. */
  function ApplyAll(o: Options, names: seq<string>): Options
    decreases |names|
  {
    if names == [] then o else ApplyAll(ApplyOption(o, names[0]), names[1..])
  }

  /** Splitting joined text: the pieces of `a + ":" + b` are those of `a`
      followed by those of `b`. */
  lemma {:induction false} SegmentsJoin(a: string, b: string)
    ensures Segments(a + [':'] + b) == Segments(a) + Segments(b)
    decreases |a|
  {
    var s := a + [':'] + b;
    var pa := Find(a, ':', 0);
    var ps := Find(s, ':', 0);
    if pa.None? {
      assert s[|a|] == ':';
      FindPrefix(a, b, 0);
      assert ps == Some(|a|);
      assert s[..|a|] == a && s[|a| + 1..] == b;
      assert Segments(s) == [a] + Segments(b);
    } else {
      var i := pa.value;
      FindPrefix(a, b, 0);
      assert ps == Some(i);
      assert s[..i] == a[..i];
      var rest := a[i + 1..];
      assert s[i + 1..] == rest + [':'] + b;
      SegmentsJoin(rest, b);
      assert Segments(a) == [a[..i]] + Segments(rest);
      assert Segments(s) == [a[..i]] + (Segments(rest) + Segments(b));
    }
  }

  /** Searching `a + ":" + b` meets the colons of `a` first, then the
      joining one. */
  lemma {:induction false} FindPrefix(a: string, b: string, from: nat)
    requires from <= |a|
    ensures Find(a + [':'] + b, ':', from) == (if Find(a, ':', from).Some? then Find(a, ':', from) else Some(|a|))
    decreases |a| - from
  {
    var s := a + [':'] + b;
    if from < |a| {
      assert s[from] == a[from];
      if a[from] != ':' {
        FindPrefix(a, b, from + 1);
      }
    } else {
      assert s[from] == ':';
    }
  }

  lemma {:induction false} ApplyAllAppend(o: Options, xs: seq<string>, ys: seq<string>)
    ensures ApplyAll(o, xs + ys) == ApplyAll(ApplyAll(o, xs), ys)
    decreases |xs|
  {
    if xs != [] {
      assert (xs + ys)[1..] == xs[1..] + ys;
      ApplyAllAppend(ApplyOption(o, xs[0]), xs[1..], ys);
    } else {
      assert xs + ys == ys;
    }
  }

  /** The scan applies exactly the colon-separated pieces, in order: empty
      pieces are skipped by the scan and do nothing when applied. */
  lemma {:induction false} SetOptionFromIsFold(o: Options, s: string, next: nat)
    requires next <= |s|
    ensures SetOptionFrom(o, s, next) == ApplyAll(o, Segments(s[next..]))
    decreases |s| - next
  {
    var pos := Find(s, ':', next);
    if pos == Some(next) {
      SetOptionFromIsFold(o, s, next + 1);
      FoldSkip(o, s, next);
    } else if pos.Some? {
      var p := pos.value;
      assert next < p < |s|;
      var o1 := ApplyOption(o, s[next..p]);
      SetOptionFromIsFold(o1, s, p + 1);
      FoldPiece(o, s, next, p);
    } else {
      FoldLast(o, s, next);
    }
  }

  /** A colon right at `next` is an empty piece, which changes nothing. */
  lemma FoldSkip(o: Options, s: string, next: nat)
    requires next < |s| && Find(s, ':', next) == Some(next)
    requires SetOptionFrom(o, s, next + 1) == ApplyAll(o, Segments(s[next + 1..]))
    ensures SetOptionFrom(o, s, next) == ApplyAll(o, Segments(s[next..]))
  {
    SegmentsAt(s, next);
    ApplyAllCons(o, s[next..next], Segments(s[next + 1..]));
    assert ApplyOption(o, s[next..next]) == o by {
      assert s[next..next] == "";
    }
  }

  /** A non-empty piece before the colon at `p` is applied first. */
  lemma FoldPiece(o: Options, s: string, next: nat, p: nat)
    requires next < p < |s| && Find(s, ':', next) == Some(p)
    requires SetOptionFrom(ApplyOption(o, s[next..p]), s, p + 1) ==
             ApplyAll(ApplyOption(o, s[next..p]), Segments(s[p + 1..]))
    ensures SetOptionFrom(o, s, next) == ApplyAll(o, Segments(s[next..]))
  {
    SegmentsAt(s, next);
    ApplyAllCons(o, s[next..p], Segments(s[p + 1..]));
  }

  /** Without a further colon the rest of the text is the last piece. */
  lemma FoldLast(o: Options, s: string, next: nat)
    requires next <= |s| && Find(s, ':', next).None?
    ensures SetOptionFrom(o, s, next) == ApplyAll(o, Segments(s[next..]))
  {
    SegmentsAt(s, next);
    ApplyAllCons(o, s[next..], []);
  }

  /** The pieces of the text from `next` on, split at the first colon. */
  lemma SegmentsAt(s: string, next: nat)
    requires next <= |s|
    ensures var pos := Find(s, ':', next);
            Segments(s[next..]) ==
              if pos.None? then [s[next..]]
              else [s[next..pos.value]] + Segments(s[pos.value + 1..])
  {
    var t := s[next..];
    FindShift(s, next, 0);
    var pos := Find(s, ':', next);
    if pos.Some? {
      var p := pos.value;
      assert t[..p - next] == s[next..p];
      assert t[p - next + 1..] == s[p + 1..];
    }
  }

  lemma ApplyAllCons(o: Options, x: string, rest: seq<string>)
    ensures ApplyAll(o, [x] + rest) == ApplyAll(ApplyOption(o, x), rest)
  {
    assert ([x] + rest)[1..] == rest;
  }

  /** `Find` from `next + from` in `s` is `Find` from `from` in
      `s[next..]`, shifted. */
  lemma {:induction false} FindShift(s: string, next: nat, from: nat)
    requires next + from <= |s|
    ensures var r := Find(s[next..], ':', from);
            Find(s, ':', next + from) == if r.Some? then Some(r.value + next) else None
    decreases |s| - next - from
  {
    if next + from < |s| {
      assert s[next..][from] == s[next + from];
      if s[next + from] != ':' {
        FindShift(s, next, from + 1);
      }
    }
  }

  /** `set_option` is the fold of the option names over the pieces. */
  lemma SetOptionIsFold(o: Options, s: string)
    ensures SetOption(o, s) == ApplyAll(o, Segments(s))
  {
    SetOptionFromIsFold(o, s, 0);
    assert s[0..] == s;
  }

  /** Joined option strings act one after the other, so a later option
      overrides an earlier one. */
  lemma SetOptionJoin(o: Options, a: string, b: string)
    ensures SetOption(o, a + [':'] + b) == SetOption(SetOption(o, a), b)
  {
    SetOptionIsFold(o, a + [':'] + b);
    SegmentsJoin(a, b);
    ApplyAllAppend(o, Segments(a), Segments(b));
    SetOptionIsFold(o, a);
    SetOptionIsFold(SetOption(o, a), b);
  }

  /** A colon-free string is one option name. */
  lemma SetOptionSingle(o: Options, name: string)
    requires forall k :: 0 <= k < |name| ==> name[k] != ':'
    ensures SetOption(o, name) == ApplyOption(o, name)
  {
    assert name[0..] == name;
  }

  /** Two option names joined by a colon are applied in turn. */
  lemma SetOptionPair(o: Options, a: string, b: string)
    requires forall k :: 0 <= k < |a| ==> a[k] != ':'
    requires forall k :: 0 <= k < |b| ==> b[k] != ':'
    ensures SetOption(o, a + [':'] + b) == ApplyOption(ApplyOption(o, a), b)
  {
    SetOptionJoin(o, a, b);
    SetOptionSingle(o, a);
    SetOptionSingle(ApplyOption(o, a), b);
  }

  /** A doubled colon is skipped. */
  lemma SetOptionSampleDoubleColon()
    ensures SetOption(Default, "NEMESIS::NODOM") == Default.(tgGrasp := false, useDominator := false)
  {
    var o1 := Default.(tgGrasp := false);
    assert "NEMESIS::NODOM" == "NEMESIS" + [':'] + ("" + [':'] + "NODOM");
    SetOptionJoin(Default, "NEMESIS", "" + [':'] + "NODOM");
    SetOptionSingle(Default, "NEMESIS");
    SetOptionPair(o1, "", "NODOM");
  }

  /** A later option overrides an earlier one. */
  lemma SetOptionSampleOverride()
    ensures SetOption(Default, "LOCALDOM:DOM") == Default
  {
    assert "LOCALDOM:DOM" == "LOCALDOM" + [':'] + "DOM";
    SetOptionPair(Default, "LOCALDOM", "DOM");
  }

  // ---------------------------------------------------------------------
  // the fault index of `run`

  /** A fault as `run` sees it: its node, whether it sits on the output or
      on input `pos`, and its stuck value (zero or not). */
  datatype Fault = Fault(node: nat, isOutput: bool, pos: nat, val: nat)

  /** `FnodeInfo`: per node, the slots of its output faults and of each
      input's faults; a slot holds a fault's index plus one, 0 for none. */
  datatype FnodeInfo = FnodeInfo(o0: nat, o1: nat, i0: seq<nat>, i1: seq<nat>)

  /** Faults that `run` stores in the same slot. */
  predicate SameSlot(f: Fault, g: Fault) {
    && f.node == g.node && f.isOutput == g.isOutput && (f.val == 0) == (g.val == 0)
    && (f.isOutput || f.pos == g.pos)
  }

  /** Every fault names a node of known fanin count and, on an input, one of
      its inputs. */
  predicate FaultsOk(flist: seq<Fault>, fanin: map<nat, nat>) {
    forall i :: 0 <= i < |flist| ==> flist[i].node in fanin && (!flist[i].isOutput ==> flist[i].pos < fanin[flist[i].node])
  }

  /** The infos sized for their node's fanin count. */
  predicate InfosOk(infos: map<nat, FnodeInfo>, fanin: map<nat, nat>) {
    forall n :: n in infos ==> n in fanin && |infos[n].i0| == fanin[n] && |infos[n].i1| == fanin[n]
  }

  function SlotOf(info: FnodeInfo, f: Fault): nat
    requires !f.isOutput ==> f.pos < |info.i0| && f.pos < |info.i1|
  {
    if f.isOutput then (if f.val == 0 then info.o0 else info.o1)
    else if f.val == 0 then info.i0[f.pos] else info.i1[f.pos]
  }

  function SetSlot(info: FnodeInfo, f: Fault, x: nat): (r: FnodeInfo)
    requires !f.isOutput ==> f.pos < |info.i0| && f.pos < |info.i1|
    ensures |r.i0| == |info.i0| && |r.i1| == |info.i1|
  {
    if f.isOutput then (if f.val == 0 then info.(o0 := x) else info.(o1 := x))
    else if f.val == 0 then info.(i0 := info.i0[f.pos := x]) else info.(i1 := info.i1[f.pos := x])
  }

  /** The first loop of `run` over the first `n` faults: a node met for the
      first time gets an empty info and joins the node list, then fault `i`
      writes `i + 1` into its slot. */
  function Register(flist: seq<Fault>, fanin: map<nat, nat>, n: nat): (r: (map<nat, FnodeInfo>, seq<nat>))
    requires FaultsOk(flist, fanin) && n <= |flist|
    ensures InfosOk(r.0, fanin)
    ensures forall k :: 0 <= k < |r.1| ==> r.1[k] in r.0
    ensures forall m :: m in r.0 ==> m in r.1
  {
    if n == 0 then (map[], [])
    else
      var prev := Register(flist, fanin, n - 1);
      var f := flist[n - 1];
      var order := if f.node in prev.0 then prev.1 else prev.1 + [f.node];
      (AddSlot(prev.0, fanin, f, n), order)
  }

  /** Store `x` in the slot of `f`, creating the node's info, all slots 0,
      on its first fault. */
  function AddSlot(infos: map<nat, FnodeInfo>, fanin: map<nat, nat>, f: Fault, x: nat): (r: map<nat, FnodeInfo>)
    requires InfosOk(infos, fanin) && f.node in fanin && (!f.isOutput ==> f.pos < fanin[f.node])
    ensures InfosOk(r, fanin)
    ensures forall m :: m in r <==> m in infos || m == f.node
  {
    var info := if f.node in infos then infos[f.node]
                else FnodeInfo(0, 0, seq(fanin[f.node], _ => 0), seq(fanin[f.node], _ => 0));
    infos[f.node := SetSlot(info, f, x)]
  }

  /** The slot of `q`, 0 when its node has no info yet. */
  function SlotIn(infos: map<nat, FnodeInfo>, fanin: map<nat, nat>, q: Fault): nat
    requires InfosOk(infos, fanin) && q.node in fanin && (!q.isOutput ==> q.pos < fanin[q.node])
  {
    if q.node in infos then SlotOf(infos[q.node], q) else 0
  }

  /** Reading a slot back: 0 is no fault, otherwise the index is one
      less. */
  function FaultIndex(slot: nat): (r: Option<nat>)
    ensures r.None? <==> slot == 0
    ensures forall i: nat :: slot == i + 1 ==> r == Some(i)
  {
    if slot == 0 then None else Some(slot - 1)
  }

  /** Reference: one more than the index of the last of the first `n`
      faults stored in `q`'s slot, 0 when there is none. */
  function LastInSlot(flist: seq<Fault>, n: nat, q: Fault): (r: nat)
    requires n <= |flist|
    ensures r <= n
    ensures r == 0 <==> forall i :: 0 <= i < n ==> !SameSlot(flist[i], q)
    ensures r != 0 ==> SameSlot(flist[r - 1], q) && forall i :: r <= i < n ==> !SameSlot(flist[i], q)
  {
    if n == 0 then 0
    else if SameSlot(flist[n - 1], q) then n
    else LastInSlot(flist, n - 1, q)
  }

  /** Writing one slot leaves the other slots of the node alone. */
  lemma SetSlotRead(info: FnodeInfo, f: Fault, x: nat, q: Fault)
    requires !f.isOutput ==> f.pos < |info.i0| && f.pos < |info.i1|
    requires !q.isOutput ==> q.pos < |info.i0| && q.pos < |info.i1|
    requires q.node == f.node
    ensures SlotOf(SetSlot(info, f, x), q) == if SameSlot(f, q) then x else SlotOf(info, q)
  {
  }

  /** Storing in one slot leaves every other slot as it was. */
  lemma AddSlotRead(infos: map<nat, FnodeInfo>, fanin: map<nat, nat>, f: Fault, x: nat, q: Fault)
    requires InfosOk(infos, fanin) && f.node in fanin && (!f.isOutput ==> f.pos < fanin[f.node])
    requires q.node in fanin && (!q.isOutput ==> q.pos < fanin[q.node])
    ensures SlotIn(AddSlot(infos, fanin, f, x), fanin, q) == if SameSlot(f, q) then x else SlotIn(infos, fanin, q)
  {
    if q.node == f.node {
      var info := if f.node in infos then infos[f.node]
                  else FnodeInfo(0, 0, seq(fanin[f.node], _ => 0), seq(fanin[f.node], _ => 0));
      SetSlotRead(info, f, x, q);
    }
  }

  /** After the first `n` faults, a slot holds one more than the index of
      the last fault stored there, or 0 when none is; so `FaultIndex`
      recovers exactly that fault. */
  lemma {:induction false} RegisterSlots(flist: seq<Fault>, fanin: map<nat, nat>, n: nat, q: Fault)
    requires FaultsOk(flist, fanin) && n <= |flist|
    requires q.node in fanin && (!q.isOutput ==> q.pos < fanin[q.node])
    ensures SlotIn(Register(flist, fanin, n).0, fanin, q) == LastInSlot(flist, n, q)
  {
    if n > 0 {
      RegisterSlots(flist, fanin, n - 1, q);
      var f := flist[n - 1];
      assert f.node in fanin && (!f.isOutput ==> f.pos < fanin[f.node]);
      AddSlotRead(Register(flist, fanin, n - 1).0, fanin, f, n, q);
    }
  }

  /** Reference: the index of the first of the first `n` faults on node
      `m`, `n` when there is none. */
  function FirstOn(flist: seq<Fault>, n: nat, m: nat): (r: nat)
    requires n <= |flist|
    ensures r <= n
    ensures r < n ==> flist[r].node == m
    ensures forall j :: 0 <= j < r ==> flist[j].node != m
  {
    if n == 0 then 0
    else
      var p := FirstOn(flist, n - 1, m);
      if p < n - 1 then p else if flist[n - 1].node == m then n - 1 else n
  }

  /** The node list holds each faulty node once, ordered by first
      appearance. */
  lemma {:induction false} RegisterOrder(flist: seq<Fault>, fanin: map<nat, nat>, n: nat)
    requires FaultsOk(flist, fanin) && n <= |flist|
    ensures OrderedByFirst(flist, n, Register(flist, fanin, n).1)
  {
    if n > 0 {
      RegisterOrder(flist, fanin, n - 1);
      var prev := Register(flist, fanin, n - 1);
      var f := flist[n - 1];
      assert f.node in prev.0 <==> f.node in prev.1;
      OrderStep(flist, n, prev.1);
    }
  }

  ghost predicate OrderedByFirst(flist: seq<Fault>, n: nat, order: seq<nat>)
    requires n <= |flist|
  {
    && NoDup(order)
    && (forall m :: m in order <==> FirstOn(flist, n, m) < n)
    && (forall a, b :: 0 <= a < b < |order| ==> FirstOn(flist, n, order[a]) < FirstOn(flist, n, order[b]))
  }

  /** One more fault appends its node when it is new. */
  lemma OrderStep(flist: seq<Fault>, n: nat, order: seq<nat>)
    requires 0 < n <= |flist| && OrderedByFirst(flist, n - 1, order)
    ensures var m := flist[n - 1].node;
            OrderedByFirst(flist, n, if m in order then order else order + [m])
  {
    var m := flist[n - 1].node;
    forall x ensures FirstOn(flist, n - 1, x) < n - 1 ==> FirstOn(flist, n, x) == FirstOn(flist, n - 1, x) {
    }
    if m !in order {
      assert FirstOn(flist, n, m) == n - 1;
      var r := order + [m];
      forall a, b | 0 <= a < b < |r| ensures FirstOn(flist, n, r[a]) < FirstOn(flist, n, r[b]) {
        assert r[a] in order;
        if b < |order| {
          assert r[b] in order;
        }
      }
    }
  }

  /** The number of outputs `run` tries: the output count capped at the
      skip threshold. */
  function OutputsTried(no: nat, skipThreshold: nat): (r: nat)
    ensures r <= no && r <= skipThreshold
    ensures r == no || r == skipThreshold
  {
    if no > skipThreshold then skipThreshold else no
  }
}
