/** The text dump of a Boolean decomposed network (`BdnDumper`): one line
    per port, D-FF, latch, input, logic node and output, in that order.
    The network is given as the records the dump reads; node references
    appear as their `id_str()` text. */
module BdnDump {
  import opened Base

  /** The fanin of an output terminal: the driving node's `id_str()`, or
      `None` for a constant, and the inversion flag. */
  datatype OutTerm = OutTerm(fanin: Option<string>, inv: bool)

  /** `id_str()` texts are non-empty and never read as a constant or an
      inverted reference. */
  predicate IdStrOk(s: string) {
    |s| > 0 && s[0] != '~' && s != "0" && s != "1"
  }

  predicate TermOk(t: OutTerm) {
    t.fanin.Some? ==> IdStrOk(t.fanin.value)
  }

  /** `dump_output`: `1`/`0` for a constant fanin, inverted or not, and an
      optional `~` followed by the fanin's name otherwise. */
  function DumpOutput(t: OutTerm): (r: string)
    ensures t.fanin.None? ==> r == if t.inv then "1" else "0"
    ensures t.fanin.Some? && !t.inv ==> r == t.fanin.value
    ensures t.fanin.Some? && t.inv ==> r == "~" + t.fanin.value
  {
    match t.fanin
    case None => if t.inv then "1" else "0"
    case Some(name) => (if t.inv then "~" else "") + name
  }

  /** Reading a terminal text back. */
  function ReadOutput(s: string): OutTerm {
    if s == "0" then OutTerm(None, false)
    else if s == "1" then OutTerm(None, true)
    else if |s| > 0 && s[0] == '~' then OutTerm(Some(s[1..]), true)
    else OutTerm(Some(s), false)
  }

  /** The terminal text determines the terminal. */
  lemma DumpOutputRoundTrip(t: OutTerm)
    requires TermOk(t)
    ensures ReadOutput(DumpOutput(t)) == t
  {
    if t.fanin.Some? && t.inv {
      var s := DumpOutput(t);
      assert s[0] == '~' && s[1..] == t.fanin.value;
      assert s != "0" && s != "1" by {
        assert |s| >= 2;
      }
    }
  }

  datatype PortRec = PortRec(id: nat, name: string)

  /** A D-FF: id, name, the output node's name and the four terminals. */
  datatype DffRec = DffRec(id: nat, name: string, output: string,
                           input: OutTerm, clock: OutTerm, clear: OutTerm, preset: OutTerm)

  /** A latch: id, name, the output node's name and the four terminals. */
  datatype LatchRec = LatchRec(id: nat, name: string, output: string,
                               input: OutTerm, enable: OutTerm, clear: OutTerm, preset: OutTerm)

  /** What an input node stands for. */
  datatype InputSrc =
    | PrimaryInput(portId: nat, width: nat, bitpos: nat)
    | DffOutput(dffId: nat)
    | LatchOutput(latchId: nat)

  datatype InputRec = InputRec(idStr: string, src: InputSrc)

  /** A logic node: xor or and, with its two fanins and their inversion
      flags. */
  datatype LogicRec = LogicRec(idStr: string, isXor: bool,
                               fanin0: string, inv0: bool, fanin1: string, inv1: bool)

  /** What an output node feeds. */
  datatype OutputDst =
    | PrimaryOutput(portId: nat, width: nat, bitpos: nat)
    | DffData(dffId: nat) | DffClock(dffId: nat) | DffClear(dffId: nat) | DffPreset(dffId: nat)
    | LatchData(latchId: nat) | LatchEnable(latchId: nat) | LatchClear(latchId: nat) | LatchPreset(latchId: nat)

  datatype OutputRec = OutputRec(idStr: string, dst: OutputDst, term: OutTerm)

  datatype Net = Net(ports: seq<PortRec>, dffs: seq<DffRec>, latches: seq<LatchRec>,
                     inputs: seq<InputRec>, lnodes: seq<LogicRec>, outputs: seq<OutputRec>)

  function Num(n: nat): string {
    NatToString(n)
  }

  /** `"Port#ID: NAME"`. */
  function PortLine(p: PortRec): string {
    "Port#" + Num(p.id) + ": " + p.name + "\n"
  }

  /** The terminals a D-FF line lists, with their labels: input and clock
      always, clear and preset only when that terminal has a fanin. */
  function DffFields(d: DffRec): (r: seq<(string, OutTerm)>)
  {
    [("INPUT=", d.input), ("CLOCK=", d.clock)]
      + (if d.clear.fanin.Some? then [("CLEAR=", d.clear)] else [])
      + (if d.preset.fanin.Some? then [("PRESET=", d.preset)] else [])
  }

  /** The terminals a latch line lists: input always, enable, clear and
      preset only when that terminal has a fanin. */
  function LatchFields(l: LatchRec): (r: seq<(string, OutTerm)>)
  {
    [("INPUT = ", l.input)]
      + (if l.enable.fanin.Some? then [("ENABLE = ", l.enable)] else [])
      + (if l.clear.fanin.Some? then [("CLEAR = ", l.clear)] else [])
      + (if l.preset.fanin.Some? then [("PRESET = ", l.preset)] else [])
  }

  /** A labelled terminal list: `", LABEL" + terminal` for each. */
  function FieldsText(fs: seq<(string, OutTerm)>): string {
    if |fs| == 0 then "" else ", " + fs[0].0 + DumpOutput(fs[0].1) + FieldsText(fs[1..])
  }

  /** Which optional D-FF terminals are listed, and that the listed
      terminals are the record's own, in the order of the line. */
  lemma DffFieldsSpec(d: DffRec)
    ensures var fs := DffFields(d);
            && (exists i :: 0 <= i < |fs| && fs[i].0 == "CLEAR=") <==> d.clear.fanin.Some?
    ensures var fs := DffFields(d);
            && (exists i :: 0 <= i < |fs| && fs[i].0 == "PRESET=") <==> d.preset.fanin.Some?
    ensures var fs := DffFields(d);
            |fs| >= 2 && fs[0] == ("INPUT=", d.input) && fs[1] == ("CLOCK=", d.clock)
  {
    var fs := DffFields(d);
    if d.clear.fanin.Some? {
      assert fs[2].0 == "CLEAR=";
    }
    if d.preset.fanin.Some? {
      assert fs[|fs| - 1].0 == "PRESET=";
    }
    assert "CLEAR=" != "INPUT=" && "CLEAR=" != "CLOCK=" && "CLEAR=" != "PRESET=" by {
      assert "CLEAR="[0] != "INPUT="[0] && "CLEAR="[2] != "CLOCK="[2];
      assert |"CLEAR="| != |"PRESET="|;
    }
    assert "PRESET=" != "INPUT=" && "PRESET=" != "CLOCK=" by {
      assert |"PRESET="| != |"INPUT="| && |"PRESET="| != |"CLOCK="|;
    }
  }

  /** Which optional latch terminals are listed. */
  lemma LatchFieldsSpec(l: LatchRec)
    ensures var fs := LatchFields(l);
            && (exists i :: 0 <= i < |fs| && fs[i].0 == "ENABLE = ") <==> l.enable.fanin.Some?
    ensures var fs := LatchFields(l);
            && (exists i :: 0 <= i < |fs| && fs[i].0 == "CLEAR = ") <==> l.clear.fanin.Some?
    ensures var fs := LatchFields(l);
            && (exists i :: 0 <= i < |fs| && fs[i].0 == "PRESET = ") <==> l.preset.fanin.Some?
    ensures var fs := LatchFields(l);
            |fs| >= 1 && fs[0] == ("INPUT = ", l.input)
  {
    var fs := LatchFields(l);
    var e := if l.enable.fanin.Some? then 1 else 0;
    var c := if l.clear.fanin.Some? then 1 else 0;
    if l.enable.fanin.Some? {
      assert fs[1].0 == "ENABLE = ";
    }
    if l.clear.fanin.Some? {
      assert fs[1 + e].0 == "CLEAR = ";
    }
    if l.preset.fanin.Some? {
      assert fs[1 + e + c].0 == "PRESET = ";
    }
    assert "ENABLE = "[0] != "INPUT = "[0] && "ENABLE = "[0] != "CLEAR = "[0] && "ENABLE = "[0] != "PRESET = "[0];
    assert "CLEAR = "[0] != "INPUT = "[0] && "CLEAR = "[0] != "PRESET = "[0];
    assert "PRESET = "[0] != "INPUT = "[0];
  }

  function DffLine(d: DffRec): string {
    "DFF#" + Num(d.id) + ": " + d.name + " (OUTPUT=" + d.output + FieldsText(DffFields(d)) + ")\n"
  }

  function LatchLine(l: LatchRec): string {
    "LATCH#" + Num(l.id) + ": " + l.name + " (OUTPUT = " + l.output + FieldsText(LatchFields(l)) + ")\n"
  }

  /** The port reference of a primary input or output: `PORT#ID`, with
      `[BITPOS]` only for ports wider than one bit. */
  function PortRef(portId: nat, width: nat, bitpos: nat): (r: string)
    ensures width <= 1 ==> r == "PORT#" + Num(portId)
    ensures width > 1 ==> |r| > 0 && r[|r| - 1] == ']'
  {
    "PORT#" + Num(portId) + (if width > 1 then "[" + Num(bitpos) + "]" else "")
  }

  /** A wide port's reference names the bit: reading back between the
      brackets gives the bit position's text. */
  lemma PortRefBit(portId: nat, width: nat, bitpos: nat)
    requires width > 1
    ensures var r := PortRef(portId, width, bitpos);
            var k := |"PORT#" + Num(portId)|;
            r[..k] == PortRef(portId, 1, bitpos)
            && r[k] == '[' && r[k + 1..|r| - 1] == Num(bitpos)
  {
    var head := "PORT#" + Num(portId);
    var r := PortRef(portId, width, bitpos);
    assert r == head + ("[" + Num(bitpos) + "]");
    assert r[..|head|] == head;
    assert r[|head| + 1..|r| - 1] == Num(bitpos);
  }

  function InputLine(n: InputRec): string {
    n.idStr + ": " +
      (match n.src
       case PrimaryInput(p, w, b) => " " + PortRef(p, w, b)
       case DffOutput(d) => " OUTPUT@DFF#" + Num(d)
       case LatchOutput(l) => " OUTPUT@LATCH#" + Num(l))
      + "\n"
  }

  /** The operator of a logic line: `^` for xor and `&` otherwise. */
  function OpChar(isXor: bool): (c: char)
    ensures c == '^' <==> isXor
  {
    if isXor then '^' else '&'
  }

  function InvMark(inv: bool): (r: string)
    ensures |r| == if inv then 1 else 0
  {
    if inv then "~" else ""
  }

  /** `ID :  = LOGIC[F0 OP F1]`. */
  function LogicLine(n: LogicRec): string {
    n.idStr + " :  = LOGIC[" + InvMark(n.inv0) + n.fanin0 + " " + [OpChar(n.isXor)] + " "
      + InvMark(n.inv1) + n.fanin1 + "]\n"
  }

  /** The operator sits right after the first fanin and a space, and it is
      `^` exactly for an xor node; the first fanin carries `~` exactly when
      inverted (names never start with `~`). */
  lemma LogicLineOp(n: LogicRec)
    requires IdStrOk(n.fanin0)
    ensures var k := |n.idStr + " :  = LOGIC["|;
            var line := LogicLine(n);
            var f := |InvMark(n.inv0) + n.fanin0|;
            k + f + 1 < |line|
            && (line[k + f + 1] == '^' <==> n.isXor)
            && (line[k] == '~' <==> n.inv0)
  {
    var head := n.idStr + " :  = LOGIC[";
    var f0 := InvMark(n.inv0) + n.fanin0;
    var rest := [OpChar(n.isXor)] + " " + InvMark(n.inv1) + n.fanin1 + "]\n";
    var line := LogicLine(n);
    assert line == head + f0 + " " + rest by {
      AppendAssoc(head + f0 + " ", [OpChar(n.isXor)], " ");
    }
    assert line[|head| + |f0| + 1] == rest[0];
    assert line[|head|] == f0[0];
  }

  function OutputDstText(d: OutputDst): string {
    match d
    case PrimaryOutput(p, w, b) => PortRef(p, w, b)
    case DffData(i) => "DATA@DFF#" + Num(i)
    case DffClock(i) => "CLOCK@DFF#" + Num(i)
    case DffClear(i) => "CLEAR@DFF#" + Num(i)
    case DffPreset(i) => "PRESET@DFF#" + Num(i)
    case LatchData(i) => "DATA@LATCH#" + Num(i)
    case LatchEnable(i) => "ENABLE@LATCH#" + Num(i)
    case LatchClear(i) => "CLEAR@LATCH#" + Num(i)
    case LatchPreset(i) => "PRESET@LATCH#" + Num(i)
  }

  /** `ID: DEST = TERM`. */
  function OutputLine(n: OutputRec): string {
    n.idStr + ": " + OutputDstText(n.dst) + " = " + DumpOutput(n.term) + "\n"
  }

  /** The lines of one section, in list order. */
  function Lines<T>(xs: seq<T>, line: T -> string): string {
    if |xs| == 0 then "" else line(xs[0]) + Lines(xs[1..], line)
  }

  /** `operator()(s, network)`: ports, D-FFs, latches, inputs, logic nodes,
      outputs. */
  function Dump(net: Net): string {
    Lines(net.ports, PortLine) + Lines(net.dffs, DffLine) + Lines(net.latches, LatchLine)
      + Lines(net.inputs, InputLine) + Lines(net.lnodes, LogicLine) + Lines(net.outputs, OutputLine)
  }

  /** Every line ends with a line break, so a section of `n` records has
      at least `n` characters and is empty only for no records. */
  lemma {:induction false} LinesLength<T>(xs: seq<T>, line: T -> string)
    requires forall x :: |line(x)| > 0
    ensures |Lines(xs, line)| >= |xs|
    ensures |Lines(xs, line)| == 0 <==> |xs| == 0
  {
    if |xs| > 0 {
      LinesLength(xs[1..], line);
    }
  }
}
