/** Byte strings and big-endian numbers in them. */
module Octets {

  type Byte = x: int | 0 <= x < 256
  type Bytes = seq<Byte>

  /** The number that s spells, most significant byte first. */
  function Value(s: Bytes): nat {
    if s == [] then 0 else 256 * Value(s[..|s| - 1]) + s[|s| - 1]
  }

  /** The last w bytes of n. */
  function Fixed(n: nat, w: nat): (s: Bytes)
    ensures |s| == w
  {
    if w == 0 then [] else Fixed(n / 256, w - 1) + [n % 256]
  }

  /** One more than the largest number in w bytes. */
  function Span(w: nat): (n: nat)
    ensures n >= 1
  {
    if w == 0 then 1 else 256 * Span(w - 1)
  }

  lemma {:induction false} ValueOfFixed(n: nat, w: nat)
    requires n < Span(w)
    ensures Value(Fixed(n, w)) == n
  {
    if w > 0 {
      ValueOfFixed(n / 256, w - 1);
      assert Fixed(n, w)[..w - 1] == Fixed(n / 256, w - 1);
    }
  }

  lemma {:induction false} FixedOfValue(s: Bytes)
    ensures Value(s) < Span(|s|) && Fixed(Value(s), |s|) == s
    decreases |s|
  {
    if s != [] {
      FixedOfValue(s[..|s| - 1]);
      assert s == s[..|s| - 1] + [s[|s| - 1]];
    }
  }

  /** The i-th of w bytes is the digit of its place, most significant first: d, where
      n is h * 256 + d at that place, and `low` below it. */
  lemma {:induction false} FixedDigits(n: nat, w: nat, i: nat, h: nat, d: nat, low: nat)
    requires i < w && d < 256 && low < Span(w - 1 - i) && n == (h * 256 + d) * Span(w - 1 - i) + low
    ensures Fixed(n, w)[i] == d
    decreases w
  {
    if i < w - 1 {
      WithoutLast(n, h * 256 + d, Span(w - 2 - i), low);
      hide Span;
      FixedDigits(n / 256, w - 1, i, h, d, low / 256);
    }
  }

  lemma WithoutLast(n: nat, high: nat, span: nat, low: nat)
    requires n == high * (256 * span) + low && low < 256 * span
    ensures n / 256 == high * span + low / 256 && low / 256 < span
  {
    var product := high * span;
    assert high * (256 * span) == 256 * product;
  }

  lemma Spans()
    ensures Span(2) == 0x1_0000 && Span(4) == 0x1_0000_0000 && Span(8) == 0x1_0000_0000_0000_0000
  {
    assert Span(2) == 256 * Span(1);
    assert Span(4) == 256 * Span(3) == 256 * 256 * Span(2);
    assert Span(6) == 256 * Span(5) == 256 * 256 * Span(4);
    assert Span(8) == 256 * Span(7) == 256 * 256 * Span(6);
  }
}
