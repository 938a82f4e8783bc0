/** Small shared vocabulary: an optional value and a few sequence helpers
    that several of the modelled components use. */
module Base {

  /** A value that may be absent; stands for a nullable pointer. */
  datatype Option<T> = None | Some(value: T)

  /** True when no element occurs twice in `s`. */
  predicate NoDup<T(==)>(s: seq<T>) {
    forall i, j :: 0 <= i < j < |s| ==> s[i] != s[j]
  }

  /** True when `s` is strictly ascending. */
  predicate StrictlySorted(s: seq<int>) {
    forall i, j :: 0 <= i < j < |s| ==> s[i] < s[j]
  }

  /** The elements of `s` other than `x`, in their original order. */
  function Remove<T(==,!new)>(s: seq<T>, x: T): (r: seq<T>)
    ensures forall y :: y in r <==> y in s && y != x
    ensures |r| <= |s|
    ensures x !in s ==> r == s
  {
    if s == [] then []
    else if s[0] == x then Remove(s[1..], x)
    else [s[0]] + Remove(s[1..], x)
  }

  /** The elements of `s` that satisfy `p`, in their original order: what
      the source's in-place `wpos`/`rpos` compactions leave behind. */
  function Filter<T(!new)>(s: seq<T>, p: T -> bool): (r: seq<T>)
    ensures |r| <= |s|
    ensures forall k :: 0 <= k < |r| ==> p(r[k])
    ensures forall x :: x in r <==> x in s && p(x)
  {
    if s == [] then []
    else Filter(s[..|s| - 1], p) + (if p(s[|s| - 1]) then [s[|s| - 1]] else [])
  }

  /** Extending the input by one element extends the filtered result by that
      element when it passes. */
  lemma FilterSnoc<T(!new)>(s: seq<T>, k: nat, p: T -> bool)
    requires k < |s|
    ensures Filter(s[..k + 1], p) == Filter(s[..k], p) + (if p(s[k]) then [s[k]] else [])
  {
    assert s[..k + 1][..k] == s[..k];
  }

  lemma {:induction false} RemoveNoDup<T(!new)>(s: seq<T>, x: T)
    requires NoDup(s)
    ensures NoDup(Remove(s, x))
    ensures x in s ==> |Remove(s, x)| == |s| - 1
  {
    if s != [] {
      assert NoDup(s[1..]) by {
        forall i, j | 0 <= i < j < |s[1..]| ensures s[1..][i] != s[1..][j] {
          assert s[1..][i] == s[i + 1] && s[1..][j] == s[j + 1];
        }
      }
      RemoveNoDup(s[1..], x);
      if s[0] == x {
        assert x !in s[1..] by {
          forall k | 0 <= k < |s[1..]| ensures s[1..][k] != x {
            assert s[1..][k] == s[k + 1];
          }
        }
      } else {
        var r := Remove(s[1..], x);
        assert s[0] !in r;
        assert NoDup([s[0]] + r) by {
          forall i, j | 0 <= i < j < |[s[0]] + r| ensures ([s[0]] + r)[i] != ([s[0]] + r)[j] {
            if i == 0 {
              assert ([s[0]] + r)[j] == r[j - 1];
            } else {
              assert ([s[0]] + r)[i] == r[i - 1] && ([s[0]] + r)[j] == r[j - 1];
            }
          }
        }
        if x in s {
          assert x in s[1..];
        }
      }
    }
  }

  /** Concatenation is associative (stated once so that a proof can
      use it without the solver searching for it). */
  lemma AppendAssoc<T>(a: seq<T>, b: seq<T>, c: seq<T>)
    ensures (a + b) + c == a + (b + c)
  {
  }

  /** Appending the head of `xs` and then its tail appends `xs`. */
  lemma AppendHeadTail<T>(a: seq<T>, xs: seq<T>)
    requires |xs| > 0
    ensures (a + [xs[0]]) + xs[1..] == a + xs
  {
    assert xs == [xs[0]] + xs[1..];
  }

  /** The tail of a duplicate-free sequence is duplicate-free and misses the
      head. */
  lemma NoDupTail<T>(xs: seq<T>)
    requires |xs| > 0 && NoDup(xs)
    ensures NoDup(xs[1..]) && xs[0] !in xs[1..]
  {
  }

  /** The number of true values. */
  function CountTrue(vs: seq<bool>): nat {
    if vs == [] then 0 else CountTrue(vs[..|vs| - 1]) + (if vs[|vs| - 1] then 1 else 0)
  }

  /** An odd number of the values are true. */
  predicate Parity(vs: seq<bool>) {
    CountTrue(vs) % 2 == 1
  }

  /** Counting over a concatenation adds the counts. */
  lemma {:induction false} CountTrueAppend(a: seq<bool>, b: seq<bool>)
    ensures CountTrue(a + b) == CountTrue(a) + CountTrue(b)
    decreases |b|
  {
    if b == [] {
      assert a + b == a;
    } else {
      CountTrueAppend(a, b[..|b| - 1]);
      assert (a + b)[..|a + b| - 1] == a + b[..|b| - 1];
    }
  }

  /** The parity of a concatenation is the exclusive or of the parities. */
  lemma ParityAppend(a: seq<bool>, b: seq<bool>)
    ensures Parity(a + b) == (Parity(a) != Parity(b))
  {
    CountTrueAppend(a, b);
  }

  /** 2 to the power `k`. */
  function Pow2(k: nat): (p: nat)
    ensures p >= 1
  {
    if k == 0 then 1 else 2 * Pow2(k - 1)
  }

  /** Number of one bits in a 64-bit word. */
  function PopCount(w: bv64): (r: nat)
    ensures r <= 64
    ensures w == 0 ==> r == 0
  {
    PopCountLow(w, 64)
  }

  /** Number of one bits among the lowest `k` bits of `w`. */
  function PopCountLow(w: bv64, k: nat): (r: nat)
    requires k <= 64
    ensures r <= k
    ensures w == 0 ==> r == 0
  {
    if k == 0 then 0
    else (if w & 1 == 1 then 1 else 0) + PopCountLow(w >> 1, k - 1)
  }

  /** Decimal text of a natural number, as `operator<<` prints it. */
  function NatToString(n: nat): (r: string)
    ensures |r| >= 1
    ensures forall i :: 0 <= i < |r| ==> '0' <= r[i] <= '9'
    decreases n
  {
    if n < 10 then [DigitChar(n)]
    else NatToString(n / 10) + [DigitChar(n % 10)]
  }

  function DigitChar(d: nat): (c: char)
    requires d < 10
    ensures '0' <= c <= '9'
  {
    ['0', '1', '2', '3', '4', '5', '6', '7', '8', '9'][d]
  }

  /** Decimal text of an integer, with a leading '-' for negatives. */
  function IntToString(n: int): (r: string)
    ensures |r| >= 1
  {
    if n < 0 then "-" + NatToString(-n) else NatToString(n)
  }

  /** A prefix of a prefix is a prefix. */
  lemma PrefixTrans<T>(a: seq<T>, b: seq<T>, c: seq<T>)
    requires |a| <= |b| <= |c| && b[..|a|] == a && c[..|b|] == b
    ensures c[..|a|] == a
  {
    assert c[..|a|] == c[..|b|][..|a|];
  }
}
