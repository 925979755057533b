/** The `"%08x"` rendering `_arcs` applies to the 32-bit AccurateRip
    checksum before comparing it with the reference strings. */
module Hex {

  const TwoTo32: nat := 0x1_0000_0000

  /** An AccurateRip (v1) checksum: an unsigned 32-bit value. */
  type UInt32 = n: nat | n < TwoTo32

  predicate IsLowerHex(c: char) {
    '0' <= c <= '9' || 'a' <= c <= 'f'
  }

  function HexDigit(d: nat): (c: char)
    requires d < 16
    ensures IsLowerHex(c)
  {
    if d < 10 then ('0' as int + d) as char else ('a' as int + d - 10) as char
  }

  function HexDigitValue(c: char): (d: nat)
    requires IsLowerHex(c)
    ensures d < 16
  {
    if c <= '9' then c as int - '0' as int else c as int - 'a' as int + 10
  }

  function Pow16(k: nat): (p: nat)
    ensures p >= 1
  {
    if k == 0 then 1 else 16 * Pow16(k - 1)
  }

  /** The `k` lowest hexadecimal digits of `v`, most significant first,
      zero-padded: the `%0<k>x` conversion. */
  function HexDigits(v: nat, k: nat): (s: string)
    ensures |s| == k
    ensures forall i :: 0 <= i < |s| ==> IsLowerHex(s[i])
  {
    if k == 0 then "" else HexDigits(v / 16, k - 1) + [HexDigit(v % 16)]
  }

  /** The number a run of hexadecimal digits denotes. */
  function HexValue(s: string): nat
    requires forall i :: 0 <= i < |s| ==> IsLowerHex(s[i])
  {
    if |s| == 0 then 0 else HexValue(s[..|s| - 1]) * 16 + HexDigitValue(s[|s| - 1])
  }

  /** `"%08x" % v`: always exactly eight lower-case hexadecimal digits. */
  function Hex8(v: UInt32): (s: string)
    ensures |s| == 8
    ensures forall i :: 0 <= i < |s| ==> IsLowerHex(s[i])
  {
    HexDigits(v, 8)
  }

  /** `(v // 16) % p * 16 + v % 16` is `v % (16 * p)`. */
  lemma ModSplit(v: nat, p: nat)
    requires p >= 1
    ensures (v / 16) % p * 16 + v % 16 == v % (16 * p)
  {
    var q, r := v / 16, v % 16;
    var a, b := q / p, q % p;
    assert v == 16 * q + r;
    assert q == p * a + b;
    assert v == (16 * p) * a + (16 * b + r);
    assert 0 <= 16 * b + r < 16 * p;
    ModUnique(v, 16 * p, a, 16 * b + r);
  }

  lemma ModUnique(v: nat, m: nat, a: nat, c: nat)
    requires m >= 1 && c < m && v == m * a + c
    ensures v % m == c
  {
    var a', c' := v / m, v % m;
    assert m * a' + c' == m * a + c;
    if a' < a {
      MulStep(m, a', a);
    } else if a' > a {
      MulStep(m, a, a');
    }
  }

  /** A strictly larger multiple of `m` is at least `m` larger. */
  lemma MulStep(m: nat, x: nat, y: nat)
    requires x < y
    ensures m * x + m <= m * y
    decreases y - x
  {
    if y > x + 1 {
      MulStep(m, x, y - 1);
      assert m * y == m * (y - 1) + m;
    } else {
      assert m * y == m * x + m;
    }
  }

  /** Reading back `k` rendered digits gives the value modulo `16^k`. */
  lemma {:induction false} HexDigitsValue(v: nat, k: nat)
    ensures HexValue(HexDigits(v, k)) == v % Pow16(k)
  {
    if k > 0 {
      var s := HexDigits(v, k);
      assert s[..|s| - 1] == HexDigits(v / 16, k - 1);
      HexDigitsValue(v / 16, k - 1);
      assert HexDigitValue(HexDigit(v % 16)) == v % 16;
      ModSplit(v, Pow16(k - 1));
    }
  }

  lemma Pow16Eight()
    ensures Pow16(8) == TwoTo32
  {
    assert Pow16(1) == 0x10;
    assert Pow16(2) == 0x100;
    assert Pow16(3) == 0x1000;
    assert Pow16(4) == 0x1_0000;
    assert Pow16(5) == 0x10_0000;
    assert Pow16(6) == 0x100_0000;
    assert Pow16(7) == 0x1000_0000;
  }

  /** The rendering loses nothing: the eight digits spell the checksum. */
  lemma Hex8RoundTrip(v: UInt32)
    ensures HexValue(Hex8(v)) == v
  {
    HexDigitsValue(v, 8);
    Pow16Eight();
    ModUnique(v, TwoTo32, 0, v);
  }

  /** Two checksums compare equal as strings exactly when they are equal. */
  lemma Hex8Injective(v: UInt32, w: UInt32)
    ensures Hex8(v) == Hex8(w) <==> v == w
  {
    Hex8RoundTrip(v);
    Hex8RoundTrip(w);
  }
}
