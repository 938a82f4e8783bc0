/** The input reader of the minimum-cover test driver (`mincov_test`):
    each line is a comment (`#` first), or two integers separated by
    spaces or tabs; the pair `-1 -1` ends the data. */
module MincovParse {
  import opened Base

  /** `is_num`: a decimal digit. */
  predicate IsNum(c: char) {
    '0' <= c <= '9'
  }

  /** `is_spc`: a space or a tab. */
  predicate IsSpc(c: char) {
    c == ' ' || c == '\t'
  }

  /** The character at `pos` of the line buffer: past the text sits the
      terminating NUL. */
  function At(line: string, pos: nat): char {
    if pos < |line| then line[pos] else '\0'
  }

  /** The value of a digit. */
  function DigitVal(c: char): (d: nat)
    requires IsNum(c)
    ensures d < 10
  {
    c as int - '0' as int
  }

  /** The value of a digit string, most significant digit first. */
  function DigitsValue(s: string): (v: nat)
    requires forall i :: 0 <= i < |s| ==> IsNum(s[i])
  {
    if |s| == 0 then 0 else DigitsValue(s[..|s| - 1]) * 10 + DigitVal(s[|s| - 1])
  }

  /** The end of the run of digits starting at `pos`. */
  function DigitsEnd(line: string, pos: nat): (e: nat)
    ensures pos <= e && (e == pos || e <= |line|)
    ensures forall k :: pos <= k < e ==> IsNum(line[k])
    ensures e < |line| ==> !IsNum(line[e])
    decreases |line| - pos
  {
    if pos < |line| && IsNum(line[pos]) then
      DigitsEnd(line, pos + 1)
    else pos
  }

  /** A magnitude with its sign. */
  function Signed(neg: bool, v: nat): int {
    if neg then -(v as int) else v
  }

  /** `parse_num(buff, rpos, num)`: an optional `-` and at least one digit
      from `pos`; the number and the position just past its last digit,
      or `None` when no digit follows.  The buffer itself is not
      changed (the source puts a NUL after the digits for `atoi` and
      restores the character afterwards). */
  function ParseNum(line: string, pos: nat): (r: Option<(int, nat)>)
    ensures r.Some? ==> pos < r.value.1 <= |line| && !IsNum(At(line, r.value.1))
  {
    var p1 := if At(line, pos) == '-' then pos + 1 else pos;
    var e := DigitsEnd(line, p1);
    if e == p1 then None
    else
      var v := DigitsValue(line[p1..e]);
      Some((Signed(p1 != pos, v), e))
  }

  /** `parse_num` succeeds exactly when a digit follows the optional
      sign; the digits then run up to the returned position and give the
      number, negated after a `-`. */
  lemma ParseNumSpec(line: string, pos: nat)
    ensures var p1 := if At(line, pos) == '-' then pos + 1 else pos;
            var r := ParseNum(line, pos);
            && (r.Some? <==> IsNum(At(line, p1)))
            && (r.Some? ==> p1 < r.value.1
                            && (forall k :: p1 <= k < r.value.1 ==> IsNum(line[k]))
                            && r.value.0 == Signed(p1 != pos, DigitsValue(line[p1..r.value.1])))
  {
  }

  /** The decimal digits of `n` read back as `n`. */
  lemma {:induction false} DigitsValueOfNat(n: nat)
    ensures forall i :: 0 <= i < |NatToString(n)| ==> IsNum(NatToString(n)[i])
    ensures DigitsValue(NatToString(n)) == n
    decreases n
  {
    DigitCharValue(n % 10);
    if n >= 10 {
      DigitsValueOfNat(n / 10);
      var s := NatToString(n);
      assert s[..|s| - 1] == NatToString(n / 10);
    }
  }

  lemma DigitCharValue(d: nat)
    requires d < 10
    ensures IsNum(DigitChar(d)) && DigitVal(DigitChar(d)) == d
  {
  }

  /** The digits of `n` end where a non-digit follows. */
  lemma DigitsEndOfText(s: string, rest: string, pos: nat)
    requires pos <= |s| && forall i :: 0 <= i < |s| ==> IsNum(s[i])
    requires |rest| == 0 || !IsNum(rest[0])
    ensures DigitsEnd(s + rest, pos) == |s|
    decreases |s| - pos
  {
    if pos < |s| {
      DigitsEndOfText(s, rest, pos + 1);
    }
  }

  /** Printing an integer and parsing it back gives the integer, and the
      parse stops right after it, whatever non-digit follows. */
  lemma ParseNumRoundTrip(n: int, rest: string)
    requires |rest| == 0 || !IsNum(rest[0])
    ensures ParseNum(IntToString(n) + rest, 0) == Some((n, |IntToString(n)|))
  {
    var m: nat := if n < 0 then -n else n;
    IntTextSplit(n);
    DigitsValueOfNat(m);
    SignedText(IntToString(n), n < 0, NatToString(m), n, rest);
  }

  /** A signed digit string followed by a non-digit parses as its value. */
  lemma SignedText(text: string, neg: bool, digits: string, n: int, rest: string)
    requires text == SignText(neg) + digits
    requires |digits| > 0 && forall i :: 0 <= i < |digits| ==> IsNum(digits[i])
    requires Signed(neg, DigitsValue(digits)) == n
    requires |rest| == 0 || !IsNum(rest[0])
    ensures ParseNum(text + rest, 0) == Some((n, |text|))
  {
    ParseNumDigits(neg, digits, rest);
    AppendAssoc(SignText(neg), digits, rest);
  }

  /** The text of a sign: `-` or nothing. */
  function SignText(neg: bool): (s: string)
    ensures |s| == if neg then 1 else 0
    ensures neg ==> s[0] == '-'
  {
    if neg then "-" else ""
  }

  /** Integer text is a sign, then the digits of the magnitude. */
  lemma IntTextSplit(n: int)
    ensures IntToString(n) == SignText(n < 0) + NatToString(if n < 0 then -n else n)
  {
    if n >= 0 {
      assert SignText(false) + NatToString(n) == NatToString(n);
    }
  }

  /** A sign, a non-empty run of digits and a non-digit parse as the
      signed value of the digits. */
  lemma ParseNumDigits(neg: bool, digits: string, rest: string)
    requires |digits| > 0 && forall i :: 0 <= i < |digits| ==> IsNum(digits[i])
    requires |rest| == 0 || !IsNum(rest[0])
    ensures ParseNum(SignText(neg) + (digits + rest), 0)
            == Some((Signed(neg, DigitsValue(digits)), |SignText(neg)| + |digits|))
  {
    var sign := SignText(neg);
    var line := sign + (digits + rest);
    SignStart(neg, digits + rest);
    DigitsEndOfText(digits, rest, 0);
    DigitsEndShift(sign, digits + rest, 0);
    MiddleSlice(sign, digits, rest);
    ParseNumAt(line, |sign|, |sign| + |digits|);
  }

  /** The middle of three pieces is a slice of their concatenation. */
  lemma MiddleSlice<T>(a: seq<T>, b: seq<T>, c: seq<T>)
    ensures (a + (b + c))[|a|..|a| + |b|] == b
  {
  }

  /** `parse_num` from `0` when the sign ends at `p1` and the digits run
      from there to `e`. */
  lemma ParseNumAt(line: string, p1: nat, e: nat)
    requires p1 <= 1 && (At(line, 0) == '-' <==> p1 == 1)
    requires p1 < e && DigitsEnd(line, p1) == e
    ensures ParseNum(line, 0) == Some((Signed(p1 == 1, DigitsValue(line[p1..e])), e))
  {
  }

  /** The sign decides the first character. */
  lemma SignStart(neg: bool, t: string)
    requires |t| > 0 && IsNum(t[0])
    ensures At(SignText(neg) + t, 0) == '-' <==> neg
  {
    if !neg {
      assert SignText(neg) + t == t;
    } else {
      assert (SignText(neg) + t)[0] == '-';
    }
  }

  /** A prefix shifts where a run of digits ends by its length. */
  lemma DigitsEndShift(pre: string, s: string, pos: nat)
    ensures DigitsEnd(pre + s, |pre| + pos) == |pre| + DigitsEnd(s, pos)
    decreases |s| - pos
  {
    if pos < |s| {
      assert (pre + s)[|pre| + pos] == s[pos];
      DigitsEndShift(pre, s, pos + 1);
    }
  }

  /** What one line holds. */
  datatype LineResult = Comment | Pair(num1: int, num2: int) | Malformed

  /** The number `parse_line` returns: 0 for a comment, 1 for a pair
      (one for the line, not the count of numbers) and -1 for an error. */
  function Code(r: LineResult): int {
    match r
    case Comment => 0
    case Pair(_, _) => 1
    case Malformed => -1
  }

  /** The end of the run of spaces and tabs from `pos`. */
  function SkipSpc(line: string, pos: nat): (e: nat)
    ensures pos <= e && (e == pos || e <= |line|)
    ensures forall k :: pos <= k < e ==> IsSpc(line[k])
    ensures e < |line| ==> !IsSpc(line[e])
    decreases |line| - pos
  {
    if pos < |line| && IsSpc(line[pos]) then
      SkipSpc(line, pos + 1)
    else pos
  }

  /** `parse_line`: a comment when the line starts with `#`; otherwise a
      number, any spaces and tabs, and a second number, whatever follows
      it; anything else is malformed (an empty line too). */
  function ParseLine(line: string): (r: LineResult)
    ensures r == Comment <==> At(line, 0) == '#'
  {
    if At(line, 0) == '#' then Comment
    else
      match ParseNum(line, 0)
      case None => Malformed
      case Some((n1, p)) =>
        match ParseNum(line, SkipSpc(line, p))
        case None => Malformed
        case Some((n2, _)) => Pair(n1, n2)
  }

  /** A pair line: the text of two numbers with at least one space or tab
      between them reads back as the pair, whatever non-digit text
      follows. */
  lemma ParseLineRoundTrip(a: int, b: int, gap: string, rest: string)
    requires |gap| > 0 && forall i :: 0 <= i < |gap| ==> IsSpc(gap[i])
    requires |rest| == 0 || !IsNum(rest[0])
    ensures ParseLine(IntToString(a) + gap + IntToString(b) + rest) == Pair(a, b)
  {
    var ta, tb := IntToString(a), IntToString(b);
    IntTextStart(a);
    IntTextStart(b);
    HeadAt(gap + (tb + rest), gap, tb + rest);
    ParseNumRoundTrip(a, gap + (tb + rest));
    ParseNumRoundTrip(b, rest);
    PairLineText(ta, gap, tb, rest, a, b);
  }

  /** The same for any two number texts that read back as `a` and `b`. */
  lemma PairLineText(ta: string, gap: string, tb: string, rest: string, a: int, b: int)
    requires |ta| > 0 && (ta[0] == '-' || IsNum(ta[0]))
    requires |tb| > 0 && (tb[0] == '-' || IsNum(tb[0]))
    requires |gap| > 0 && forall i :: 0 <= i < |gap| ==> IsSpc(gap[i])
    requires ParseNum(ta + (gap + (tb + rest)), 0) == Some((a, |ta|))
    requires ParseNum(tb + rest, 0) == Some((b, |tb|))
    ensures ParseLine(ta + gap + tb + rest) == Pair(a, b)
  {
    var line := ta + gap + tb + rest;
    var tail := tb + rest;
    LineParts(ta, gap, tb, rest);
    HeadAt(tail, tb, rest);
    PairLineAt(line, ta, gap, tail, a, b, |tb|);
  }

  /** A line made of a number text `ta`, a gap of spaces and tabs, and a
      tail that reads as a second number. */
  lemma PairLineAt(line: string, ta: string, gap: string, tail: string, a: int, b: int, e: nat)
    requires line == ta + (gap + tail) && line == (ta + gap) + tail
    requires |ta| > 0 && (ta[0] == '-' || IsNum(ta[0]))
    requires |gap| > 0 && forall i :: 0 <= i < |gap| ==> IsSpc(gap[i])
    requires |tail| > 0 && !IsSpc(tail[0])
    requires ParseNum(line, 0) == Some((a, |ta|))
    requires ParseNum(tail, 0) == Some((b, e))
    ensures ParseLine(line) == Pair(a, b)
  {
    var at := |ta| + |gap|;
    ParseNumAfter(line, ta + gap, tail, at, b, e);
    SkipGap(line, ta, gap, tail, 0, |ta|);
    HeadAt(line, ta, gap + tail);
    ParseLinePair(line, a, |ta|, at, b, at + e);
  }

  /** The two groupings of a pair line used to read it. */
  lemma LineParts(ta: string, gap: string, tb: string, rest: string)
    ensures ta + gap + tb + rest == ta + (gap + (tb + rest))
    ensures ta + gap + tb + rest == (ta + gap) + (tb + rest)
  {
    AppendAssoc(ta, gap, tb);
    AppendAssoc(ta + gap, tb, rest);
    AppendAssoc(gap, tb, rest);
    AppendAssoc(ta, gap, tb + rest);
  }

  /** The first character of a line with a non-empty front. */
  lemma HeadAt(line: string, s: string, t: string)
    requires line == s + t && |s| > 0
    ensures line[0] == s[0] && At(line, 0) == s[0]
  {
  }

  /** A line that is no comment and holds a number, spaces and a second
      number reads as that pair. */
  lemma ParseLinePair(line: string, n1: int, p: nat, q: nat, n2: int, e: nat)
    requires At(line, 0) != '#'
    requires ParseNum(line, 0) == Some((n1, p))
    requires SkipSpc(line, p) == q
    requires ParseNum(line, q) == Some((n2, e))
    ensures ParseLine(line) == Pair(n1, n2)
  {
  }

  /** Integer text starts with `-` or a digit, never with `#`, a space or
      a tab. */
  lemma IntTextStart(n: int)
    ensures IntToString(n)[0] == '-' || IsNum(IntToString(n)[0])
  {
    if n >= 0 {
      DigitsValueOfNat(n);
    } else {
      assert IntToString(n)[0] == '-';
    }
  }

  /** Skipping the gap after the first number lands on the second. */
  lemma SkipGap(line: string, pre: string, gap: string, s: string, k: nat, at: nat)
    requires line == pre + (gap + s) && at == |pre| + k
    requires k <= |gap| && forall i :: 0 <= i < |gap| ==> IsSpc(gap[i])
    requires |s| > 0 && !IsSpc(s[0])
    ensures SkipSpc(line, at) == |pre| + |gap|
    decreases |gap| - k
  {
    if k < |gap| {
      assert line[|pre| + k] == gap[k];
      SkipGap(line, pre, gap, s, k + 1, at + 1);
    } else {
      assert line[|pre| + |gap|] == s[0];
    }
  }

  /** Parsing a number after a prefix parses the rest from its start. */
  lemma ParseNumAfter(line: string, pre: string, s: string, at: nat, n: int, e: nat)
    requires line == pre + s && at == |pre|
    requires ParseNum(s, 0) == Some((n, e))
    ensures ParseNum(line, at) == Some((n, at + e))
  {
    assert At(line, |pre|) == At(s, 0);
    var p1 := if At(s, 0) == '-' then 1 else 0;
    assert At(line, |pre| + p1) == At(s, p1);
    DigitsEndShift(pre, s, p1);
    assert line[|pre| + p1..|pre| + e] == s[p1..e];
  }

  /** The outcome of `parse_data`: whether it succeeded, and the pairs
      stored before it stopped. */
  datatype Outcome = Outcome(ok: bool, pairs: seq<(int, int)>)

  /** `getline` into a 1024-byte buffer fails on a line of more than
      1023 characters, which ends the read loop. */
  const MaxLine: nat := 1023

  /** Whether reading stops before line `line` is stored: a failed
      `getline` or the end marker `-1 -1`. */
  predicate Stops(line: string) {
    |line| > MaxLine || ParseLine(line) == Pair(-1, -1)
  }

  /** `parse_data`: lines are read in order; comments are skipped, pairs
      stored, the pair `-1 -1` ends the data without being stored, and a
      malformed line fails the read.  Pairs stored before a failure
      stay in the list. */
  function ParseData(lines: seq<string>): (r: Outcome)
  {
    if |lines| == 0 || Stops(lines[0]) then Outcome(true, [])
    else
      match ParseLine(lines[0])
      case Malformed => Outcome(false, [])
      case Comment => ParseData(lines[1..])
      case Pair(a, b) =>
        var rest := ParseData(lines[1..]);
        Outcome(rest.ok, [(a, b)] + rest.pairs)
  }

  /** The pairs the lines hold, comments and malformed lines skipped. */
  function PairsOf(lines: seq<string>): seq<(int, int)> {
    if |lines| == 0 then []
    else
      var rest := PairsOf(lines[1..]);
      match ParseLine(lines[0])
      case Pair(a, b) => [(a, b)] + rest
      case _ => rest
  }

  /** The index of the first line that stops or fails the read, or the
      number of lines. */
  function FirstEnd(lines: seq<string>): (k: nat)
    ensures k <= |lines|
    ensures forall i :: 0 <= i < k ==> !Stops(lines[i]) && ParseLine(lines[i]) != Malformed
    ensures k < |lines| ==> Stops(lines[k]) || ParseLine(lines[k]) == Malformed
  {
    if |lines| == 0 || Stops(lines[0]) || ParseLine(lines[0]) == Malformed then 0
    else 1 + FirstEnd(lines[1..])
  }

  /** `parse_data` stores the pairs of the lines before the first line
      that ends the read, in order; it fails exactly when that line is a
      malformed line rather than an end marker or an over-long line. */
  lemma {:induction false} ParseDataSpec(lines: seq<string>)
    ensures var k := FirstEnd(lines);
            && ParseData(lines).pairs == PairsOf(lines[..k])
            && (ParseData(lines).ok <==> k == |lines| || Stops(lines[k]))
  {
    if |lines| > 0 && !Stops(lines[0]) && ParseLine(lines[0]) != Malformed {
      ParseDataSpec(lines[1..]);
      var k := FirstEnd(lines);
      assert lines[..k][1..] == lines[1..][..k - 1];
    }
  }

  /** The end marker stops the read: what follows it is never looked
      at. */
  lemma ParseDataStopsAtMarker(before: seq<string>, marker: string, after: seq<string>)
    requires Stops(marker)
    requires forall i :: 0 <= i < |before| ==> !Stops(before[i]) && ParseLine(before[i]) != Malformed
    ensures ParseData(before + [marker] + after) == Outcome(true, PairsOf(before))
  {
    var lines := before + [marker] + after;
    FirstEndAt(lines, |before|);
    ParseDataSpec(lines);
    assert lines[..|before|] == before;
  }

  /** The first line that ends the read is the first one at which a line
      stops or fails. */
  lemma {:induction false} FirstEndAt(lines: seq<string>, k: nat)
    requires k < |lines| && (Stops(lines[k]) || ParseLine(lines[k]) == Malformed)
    requires forall i :: 0 <= i < k ==> !Stops(lines[i]) && ParseLine(lines[i]) != Malformed
    ensures FirstEnd(lines) == k
  {
    if k > 0 {
      FirstEndAt(lines[1..], k - 1);
    }
  }
}
