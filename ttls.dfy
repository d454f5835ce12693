/**
 * Extraction of one TTL channel from packed 16-bit digital-input words
 * (find_high_ttls_at_single_channel).  The source computes
 * `(digital_inputs & 2**ttl_index) > 0` element-wise; the bitwise AND is
 * written out on naturals and proved to be a test of one bit.
 */
module Ttls {

  /** One sample of the digital-input port: an unsigned 16-bit word. */
  type Word = x: int | 0 <= x < 0x1_0000

  function Pow2(n: nat): (p: nat)
    ensures p >= 1
  {
    if n == 0 then 1 else 2 * Pow2(n - 1)
  }

  /** Bitwise AND of two non-negative integers, one bit per recursion step. */
  function BitAnd(x: nat, y: nat): nat
  {
    if x == 0 || y == 0 then 0
    else 2 * BitAnd(x / 2, y / 2) + (x % 2) * (y % 2)
  }

  /** Bit `c` of `x` is set. */
  predicate BitIsSet(x: nat, c: nat)
  {
    (x / Pow2(c)) % 2 == 1
  }

  lemma DivUnique(x: nat, d: nat, q: nat, r: nat)
    requires d > 0 && r < d && x == d * q + r
    ensures x / d == q && x % d == r
  {
    var q', r' := x / d, x % d;
    assert x == d * q' + r';
    if q' > q {
      MulAtLeast(d, q' - q);
    } else if q' < q {
      MulAtLeast(d, q - q');
    }
  }

  lemma MulAtLeast(d: nat, k: nat)
    requires k >= 1
    ensures d * k >= d
  {
    assert d * k == d + d * (k - 1);
  }

  /** Halving and then dividing by m is dividing by 2m. */
  lemma HalfThenDiv(x: nat, m: nat)
    requires m > 0
    ensures (x / 2) / m == x / (2 * m)
  {
    var q, r := x / (2 * m), x % (2 * m);
    assert x == 2 * m * q + r;
    assert x / 2 == m * q + r / 2 by {
      DivUnique(x, 2, m * q + r / 2, r % 2);
    }
    DivUnique(x / 2, m, q, r / 2);
  }

  /** ANDing with the mask 2^c leaves exactly bit c of x, in place. */
  lemma {:induction false} BitAndWithMask(x: nat, c: nat)
    ensures BitAnd(x, Pow2(c)) == Pow2(c) * ((x / Pow2(c)) % 2)
  {
    if c == 0 {
      assert Pow2(0) == 1;
      if x != 0 {
        assert BitAnd(x / 2, 0) == 0;
      }
    } else if x == 0 {
    } else {
      var m := Pow2(c - 1);
      assert Pow2(c) == 2 * m;
      assert (2 * m) % 2 == 0 && (2 * m) / 2 == m;
      BitAndWithMask(x / 2, c - 1);
      HalfThenDiv(x, m);
      calc {
        BitAnd(x, Pow2(c));
        2 * BitAnd(x / 2, m);
        2 * (m * (((x / 2) / m) % 2));
        (2 * m) * ((x / (2 * m)) % 2);
      }
    }
  }

  /** The mask-and-compare of the source is a test of bit c. */
  lemma MaskTestIsBitTest(c: nat)
    ensures forall x: nat :: BitAnd(x, Pow2(c)) > 0 <==> BitIsSet(x, c)
  {
    forall x: nat
      ensures BitAnd(x, Pow2(c)) > 0 <==> BitIsSet(x, c)
    {
      BitAndWithMask(x, c);
    }
  }

  /**
   * The level (0 or 1) of channel `ttlIndex` at every sample.  The channel
   * index is documented as 0 to 15 and never checked, so it is a
   * precondition here.  The result is a new sequence; the input is a value.
   */
  function FindHighTtlsAtSingleChannel(digitalInputs: seq<Word>, ttlIndex: int): (levels: seq<int>)
    requires 0 <= ttlIndex <= 15
    ensures |levels| == |digitalInputs|
    ensures forall i :: 0 <= i < |levels| ==> levels[i] == 0 || levels[i] == 1
    ensures forall i :: 0 <= i < |levels| ==> (levels[i] == 1 <==> BitIsSet(digitalInputs[i], ttlIndex))
  {
    var mask := Pow2(ttlIndex);
    MaskTestIsBitTest(ttlIndex);
    seq(|digitalInputs|, i requires 0 <= i < |digitalInputs| =>
      if BitAnd(digitalInputs[i], mask) > 0 then 1 else 0)
  }

  /** A level depends on its own sample only; an all-zero word is low on every channel. */
  lemma ChannelLevelIsPerSample(a: seq<Word>, b: seq<Word>, c: int, i: nat, j: nat)
    requires 0 <= c <= 15 && i < |a| && j < |b|
    ensures a[i] == b[j] ==> FindHighTtlsAtSingleChannel(a, c)[i] == FindHighTtlsAtSingleChannel(b, c)[j]
    ensures a[i] == 0 ==> FindHighTtlsAtSingleChannel(a, c)[i] == 0
  {
  }
}
