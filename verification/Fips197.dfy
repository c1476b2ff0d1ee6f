/** The reference cipher of FIPS 197, stated on its own terms.

    Nothing here follows the optimised source: field multiplication is the
    polynomial product of section 4.2, the round transformations are those of
    sections 5.1 and 5.3, and the key expansion is the recurrence of section
    5.2.  The other AES modules prove that the source computes these functions. */
module Fips197 {
  import opened AesWords

  // ------------------------------------------------ GF(2^8), section 4.2

  /** Multiplication by x modulo x^8 + x^4 + x^3 + x + 1 (section 4.2.1). */
  function XTime(b: bv8): bv8 {
    (b << 1) ^ ((b >> 7) * 0x1b)
  }

  /** b if the constant term of a is set, and zero otherwise. */
  function Pick(a: bv8, b: bv8): bv8 {
    (a & 1) * b
  }

  /** The product of the polynomials given by b and the lowest `bits` bits of a. */
  function Product(a: bv8, b: bv8, bits: nat): bv8
    decreases bits
  {
    if bits == 0 then 0
    else Xor8(Pick(a, b), Product(a >> 1, XTime(b), bits - 1))
  }

  function Mul(a: bv8, b: bv8): bv8 {
    Product(a, b, 8)
  }

  function RotateLeft(b: bv8, n: bv8): bv8
    requires 0 < n < 8
  {
    (b << n) | (b >> (8 - n))
  }

  /** The affine transformation of section 5.1.1. */
  function Affine(b: bv8): bv8 {
    b ^ RotateLeft(b, 1) ^ RotateLeft(b, 2) ^ RotateLeft(b, 3) ^ RotateLeft(b, 4) ^ 0x63
  }

  /** `i` is the multiplicative inverse of `b`, with zero mapped to itself. */
  predicate IsFieldInverse(b: bv8, i: bv8) {
    if b == 0 then i == 0 else Mul(b, i) == 1
  }

  // ------------------------------------------- the state, sections 3.4, 5.1

  /** Column c of the state is word c; row r of a column is byte r of the word. */
  datatype Block = Block(w0: Word, w1: Word, w2: Word, w3: Word)

  function SubWord(w: Word): Word {
    MakeWord(SBox(Bval(w, 0)), SBox(Bval(w, 1)), SBox(Bval(w, 2)), SBox(Bval(w, 3)))
  }

  function InvSubWord(w: Word): Word {
    MakeWord(InvSBox(Bval(w, 0)), InvSBox(Bval(w, 1)), InvSBox(Bval(w, 2)), InvSBox(Bval(w, 3)))
  }

  function SubBytes(s: Block): Block {
    Block(SubWord(s.w0), SubWord(s.w1), SubWord(s.w2), SubWord(s.w3))
  }

  function InvSubBytes(s: Block): Block {
    Block(InvSubWord(s.w0), InvSubWord(s.w1), InvSubWord(s.w2), InvSubWord(s.w3))
  }

  /** The column that takes byte r from the r-th of four columns. */
  function Diagonal(a: Word, b: Word, c: Word, d: Word): Word {
    MakeWord(Bval(a, 0), Bval(b, 1), Bval(c, 2), Bval(d, 3))
  }

  /** Row r moves r columns to the left (section 5.1.2): column c of the result
      takes its row r from column c + r. */
  function ShiftRows(s: Block): Block {
    Block(Diagonal(s.w0, s.w1, s.w2, s.w3), Diagonal(s.w1, s.w2, s.w3, s.w0),
          Diagonal(s.w2, s.w3, s.w0, s.w1), Diagonal(s.w3, s.w0, s.w1, s.w2))
  }

  /** Row r moves r columns to the right (section 5.3.1): from column c - r. */
  function InvShiftRows(s: Block): Block {
    Block(Diagonal(s.w0, s.w3, s.w2, s.w1), Diagonal(s.w1, s.w0, s.w3, s.w2),
          Diagonal(s.w2, s.w1, s.w0, s.w3), Diagonal(s.w3, s.w2, s.w1, s.w0))
  }

  /** A row of coefficients times a column, the sums of equations 5.6 and 5.10. */
  function Dot(c0: bv8, c1: bv8, c2: bv8, c3: bv8, s0: bv8, s1: bv8, s2: bv8, s3: bv8): bv8 {
    Xor8(Xor8(Xor8(Mul(c0, s0), Mul(c1, s1)), Mul(c2, s2)), Mul(c3, s3))
  }

  /** One column of MixColumns, equation 5.6. */
  function MixColumn(w: Word): Word {
    var s0, s1, s2, s3 := Bval(w, 0), Bval(w, 1), Bval(w, 2), Bval(w, 3);
    MakeWord(Dot(0x02, 0x03, 0x01, 0x01, s0, s1, s2, s3),
             Dot(0x01, 0x02, 0x03, 0x01, s0, s1, s2, s3),
             Dot(0x01, 0x01, 0x02, 0x03, s0, s1, s2, s3),
             Dot(0x03, 0x01, 0x01, 0x02, s0, s1, s2, s3))
  }

  /** One column of InvMixColumns, equation 5.10. */
  function InvMixColumn(w: Word): Word {
    var s0, s1, s2, s3 := Bval(w, 0), Bval(w, 1), Bval(w, 2), Bval(w, 3);
    MakeWord(Dot(0x0e, 0x0b, 0x0d, 0x09, s0, s1, s2, s3),
             Dot(0x09, 0x0e, 0x0b, 0x0d, s0, s1, s2, s3),
             Dot(0x0d, 0x09, 0x0e, 0x0b, s0, s1, s2, s3),
             Dot(0x0b, 0x0d, 0x09, 0x0e, s0, s1, s2, s3))
  }

  function MixColumns(s: Block): Block {
    Block(MixColumn(s.w0), MixColumn(s.w1), MixColumn(s.w2), MixColumn(s.w3))
  }

  function InvMixColumns(s: Block): Block {
    Block(InvMixColumn(s.w0), InvMixColumn(s.w1), InvMixColumn(s.w2), InvMixColumn(s.w3))
  }

  function RoundKey(w: seq<Word>, r: nat): Block
    requires 4 * r + 4 <= |w|
  {
    Block(w[4 * r], w[4 * r + 1], w[4 * r + 2], w[4 * r + 3])
  }

  function AddRoundKey(s: Block, w: seq<Word>, r: nat): Block
    requires 4 * r + 4 <= |w|
  {
    var k := RoundKey(w, r);
    Block(Xor(s.w0, k.w0), Xor(s.w1, k.w1), Xor(s.w2, k.w2), Xor(s.w3, k.w3))
  }

  // -------------------------------------------------- the cipher, section 5.1

  /** The state after the initial AddRoundKey and `n` full rounds. */
  function Rounds(s: Block, w: seq<Word>, n: nat): Block
    requires 4 * n + 4 <= |w|
  {
    if n == 0 then AddRoundKey(s, w, 0)
    else AddRoundKey(MixColumns(ShiftRows(SubBytes(Rounds(s, w, n - 1)))), w, n)
  }

  function Cipher(s: Block, w: seq<Word>, nr: nat): Block
    requires 0 < nr && 4 * nr + 4 <= |w|
  {
    AddRoundKey(ShiftRows(SubBytes(Rounds(s, w, nr - 1))), w, nr)
  }

  // ------------------------------------------ the inverse cipher, section 5.3

  /** The state after AddRoundKey(nr) and `n` rounds of figure 12's loop. */
  function InvRounds(s: Block, w: seq<Word>, nr: nat, n: nat): Block
    requires n < nr && 4 * nr + 4 <= |w|
  {
    if n == 0 then AddRoundKey(s, w, nr)
    else InvMixColumns(AddRoundKey(InvSubBytes(InvShiftRows(InvRounds(s, w, nr, n - 1))), w, nr - n))
  }

  function InvCipher(s: Block, w: seq<Word>, nr: nat): Block
    requires 0 < nr && 4 * nr + 4 <= |w|
  {
    AddRoundKey(InvSubBytes(InvShiftRows(InvRounds(s, w, nr, nr - 1))), w, 0)
  }

  // ---------------------------------------------- key expansion, section 5.2

  function RotWord(w: Word): Word {
    MakeWord(Bval(w, 1), Bval(w, 2), Bval(w, 3), Bval(w, 0))
  }

  /** x^(i-1) in the field. */
  function XPower(i: nat): bv8
    requires 0 < i
  {
    if i == 1 then 1 else XTime(XPower(i - 1))
  }

  function Rcon(i: nat): Word
    requires 0 < i
  {
    MakeWord(XPower(i), 0, 0, 0)
  }

  predicate IsKey(key: seq<Word>) {
    |key| == 4 || |key| == 6 || |key| == 8
  }

  /** Word i of the expanded key. */
  function KeyWord(key: seq<Word>, i: nat): Word
    requires IsKey(key)
  {
    var nk := |key|;
    if i < nk then key[i]
    else
      var temp := KeyWord(key, i - 1);
      var back := KeyWord(key, i - nk);
      if i % nk == 0 then Xor(back, Xor(SubWord(RotWord(temp)), Rcon(i / nk)))
      else if nk > 6 && i % nk == 4 then Xor(back, SubWord(temp))
      else Xor(back, temp)
  }

  /** Nr = Nk + 6 rounds (figure 4). */
  function RoundCount(key: seq<Word>): nat {
    |key| + 6
  }

  /** The whole expanded key, Nb * (Nr + 1) words. */
  function KeyExpansion(key: seq<Word>): (w: seq<Word>)
    requires IsKey(key)
    ensures |w| == 4 * RoundCount(key) + 4
    ensures forall j :: 0 <= j < |w| ==> w[j] == KeyWord(key, j)
  {
    seq(4 * RoundCount(key) + 4, j requires j >= 0 => KeyWord(key, j))
  }
}

/** Facts about the reference cipher that the source relies on. */
module Fips197Facts {
  import opened AesWords
  import opened Fips197

  // ------------------------------------------------------------- the field

  lemma PickOfSum(c: bv8, a: bv8, b: bv8)
    ensures Pick(c, a ^ b) == Pick(c, a) ^ Pick(c, b)
  {
  }

  lemma PickDistributes(c: bv8, a: bv8, b: bv8)
    ensures Pick(c, Xor8(a, b)) == Xor8(Pick(c, a), Pick(c, b))
  {
    hide Pick;
    PickOfSum(c, a, b);
  }

  lemma XTimeDistributes(a: bv8, b: bv8)
    ensures XTime(Xor8(a, b)) == Xor8(XTime(a), XTime(b))
  {
  }

  lemma {:induction false} ProductDistributes(c: bv8, a: bv8, b: bv8, bits: nat)
    ensures Product(c, Xor8(a, b), bits) == Xor8(Product(c, a, bits), Product(c, b, bits))
    decreases bits
  {
    if bits == 0 {
      assert Xor8(0, 0) == 0;
    } else {
      hide XTime, Pick, Xor8;
      PickDistributes(c, a, b);
      XTimeDistributes(a, b);
      ProductDistributes(c >> 1, XTime(a), XTime(b), bits - 1);
      Interchange8(Pick(c, a), Pick(c, b), Product(c >> 1, XTime(a), bits - 1), Product(c >> 1, XTime(b), bits - 1));
    }
  }

  lemma MulDistributes(c: bv8, a: bv8, b: bv8)
    ensures Mul(c, Xor8(a, b)) == Xor8(Mul(c, a), Mul(c, b))
  {
    hide Product, Xor8;
    ProductDistributes(c, a, b, 8);
  }

  lemma {:induction false} ProductOfZero(b: bv8, bits: nat)
    ensures Product(0, b, bits) == 0
    decreases bits
  {
    hide XTime;
    if bits > 0 {
      ProductOfZero(XTime(b), bits - 1);
    }
  }

  lemma ProductStep(a: bv8, b: bv8, bits: nat)
    requires bits > 0
    ensures Product(a, b, bits) == Xor8(Pick(a, b), Product(a >> 1, XTime(b), bits - 1))
  {
    hide XTime, Pick, Xor8;
  }

  lemma ProductOfNibble(a: bv8, b: bv8)
    requires a < 16
    ensures var b1 := XTime(b); var b2 := XTime(b1); var b3 := XTime(b2);
            Mul(a, b) == Xor8(Pick(a, b), Xor8(Pick(a >> 1, b1), Xor8(Pick(a >> 2, b2), Pick(a >> 3, b3))))
  {
    hide Product, XTime, Pick;
    var b1 := XTime(b);
    var b2 := XTime(b1);
    var b3 := XTime(b2);
    ProductStep(a, b, 8);
    ProductStep(a >> 1, b1, 7);
    ProductStep(a >> 2, b2, 6);
    ProductStep(a >> 3, b3, 5);
    ProductOfZero(XTime(b3), 4);
    assert Xor8(Pick(a >> 3, b3), 0) == Pick(a >> 3, b3);
    hide Xor8;
  }

  lemma Picks(b: bv8)
    ensures Pick(0, b) == 0
    ensures Pick(1, b) == Pick(3, b) == Pick(5, b) == Pick(7, b) == Pick(9, b) == Pick(11, b) == Pick(13, b) == b
    ensures Pick(2, b) == Pick(4, b) == Pick(6, b) == Pick(14, b) == 0
  {
  }

  /** Multiplication by the coefficients of MixColumns and its inverse. */
  lemma SmallProducts(b: bv8)
    ensures Mul(0x01, b) == b
    ensures Mul(0x02, b) == XTime(b)
    ensures Mul(0x03, b) == Xor8(b, XTime(b))
    ensures Mul(0x09, b) == Xor8(b, XTime(XTime(XTime(b))))
    ensures Mul(0x0b, b) == Xor8(b, Xor8(XTime(b), XTime(XTime(XTime(b)))))
    ensures Mul(0x0d, b) == Xor8(b, Xor8(XTime(XTime(b)), XTime(XTime(XTime(b)))))
    ensures Mul(0x0e, b) == Xor8(XTime(b), Xor8(XTime(XTime(b)), XTime(XTime(XTime(b)))))
  {
    hide XTime, Product, Mul, Pick, Xor8;
    var b1 := XTime(b);
    var b2 := XTime(b1);
    var b3 := XTime(b2);
    Picks(b);
    Picks(b1);
    Picks(b2);
    Picks(b3);
    ProductOfNibble(0x01, b);
    ProductOfNibble(0x02, b);
    ProductOfNibble(0x03, b);
    ProductOfNibble(0x09, b);
    ProductOfNibble(0x0b, b);
    ProductOfNibble(0x0d, b);
    ProductOfNibble(0x0e, b);
    Zero8(0);
    Zero8(b);
    Zero8(b1);
    Zero8(b3);
    Zero8(Xor8(b2, b3));
    Zero8(Xor8(b1, Xor8(b2, b3)));
  }

  // --------------------------------------------------- columns as linear maps

  lemma DotDistributes(c0: bv8, c1: bv8, c2: bv8, c3: bv8,
                       a0: bv8, a1: bv8, a2: bv8, a3: bv8, b0: bv8, b1: bv8, b2: bv8, b3: bv8)
    ensures Dot(c0, c1, c2, c3, Xor8(a0, b0), Xor8(a1, b1), Xor8(a2, b2), Xor8(a3, b3))
         == Xor8(Dot(c0, c1, c2, c3, a0, a1, a2, a3), Dot(c0, c1, c2, c3, b0, b1, b2, b3))
  {
    hide Mul, Xor8;
    MulDistributes(c0, a0, b0);
    MulDistributes(c1, a1, b1);
    MulDistributes(c2, a2, b2);
    MulDistributes(c3, a3, b3);
    var p0, p1, p2, p3 := Mul(c0, a0), Mul(c1, a1), Mul(c2, a2), Mul(c3, a3);
    var q0, q1, q2, q3 := Mul(c0, b0), Mul(c1, b1), Mul(c2, b2), Mul(c3, b3);
    Interchange8(p0, q0, p1, q1);
    Interchange8(Xor8(p0, p1), Xor8(q0, q1), p2, q2);
    Interchange8(Xor8(Xor8(p0, p1), p2), Xor8(Xor8(q0, q1), q2), p3, q3);
  }

  lemma InvMixColumnDistributes(v: Word, w: Word)
    ensures InvMixColumn(Xor(v, w)) == Xor(InvMixColumn(v), InvMixColumn(w))
  {
    hide Mul, Dot, Bval, MakeWord, Xor, Xor8;
    var a0, a1, a2, a3 := Bval(v, 0), Bval(v, 1), Bval(v, 2), Bval(v, 3);
    var b0, b1, b2, b3 := Bval(w, 0), Bval(w, 1), Bval(w, 2), Bval(w, 3);
    XorBytewise(v, w);
    DotDistributes(0x0e, 0x0b, 0x0d, 0x09, a0, a1, a2, a3, b0, b1, b2, b3);
    DotDistributes(0x09, 0x0e, 0x0b, 0x0d, a0, a1, a2, a3, b0, b1, b2, b3);
    DotDistributes(0x0d, 0x09, 0x0e, 0x0b, a0, a1, a2, a3, b0, b1, b2, b3);
    DotDistributes(0x0b, 0x0d, 0x09, 0x0e, a0, a1, a2, a3, b0, b1, b2, b3);
    XorMakeWord(Dot(0x0e, 0x0b, 0x0d, 0x09, a0, a1, a2, a3), Dot(0x09, 0x0e, 0x0b, 0x0d, a0, a1, a2, a3),
                Dot(0x0d, 0x09, 0x0e, 0x0b, a0, a1, a2, a3), Dot(0x0b, 0x0d, 0x09, 0x0e, a0, a1, a2, a3),
                Dot(0x0e, 0x0b, 0x0d, 0x09, b0, b1, b2, b3), Dot(0x09, 0x0e, 0x0b, 0x0d, b0, b1, b2, b3),
                Dot(0x0d, 0x09, 0x0e, 0x0b, b0, b1, b2, b3), Dot(0x0b, 0x0d, 0x09, 0x0e, b0, b1, b2, b3));
  }

  lemma MixColumnDistributes(v: Word, w: Word)
    ensures MixColumn(Xor(v, w)) == Xor(MixColumn(v), MixColumn(w))
  {
    hide Mul, Dot, Bval, MakeWord, Xor, Xor8;
    var a0, a1, a2, a3 := Bval(v, 0), Bval(v, 1), Bval(v, 2), Bval(v, 3);
    var b0, b1, b2, b3 := Bval(w, 0), Bval(w, 1), Bval(w, 2), Bval(w, 3);
    XorBytewise(v, w);
    DotDistributes(0x02, 0x03, 0x01, 0x01, a0, a1, a2, a3, b0, b1, b2, b3);
    DotDistributes(0x01, 0x02, 0x03, 0x01, a0, a1, a2, a3, b0, b1, b2, b3);
    DotDistributes(0x01, 0x01, 0x02, 0x03, a0, a1, a2, a3, b0, b1, b2, b3);
    DotDistributes(0x03, 0x01, 0x01, 0x02, a0, a1, a2, a3, b0, b1, b2, b3);
    XorMakeWord(Dot(0x02, 0x03, 0x01, 0x01, a0, a1, a2, a3), Dot(0x01, 0x02, 0x03, 0x01, a0, a1, a2, a3),
                Dot(0x01, 0x01, 0x02, 0x03, a0, a1, a2, a3), Dot(0x03, 0x01, 0x01, 0x02, a0, a1, a2, a3),
                Dot(0x02, 0x03, 0x01, 0x01, b0, b1, b2, b3), Dot(0x01, 0x02, 0x03, 0x01, b0, b1, b2, b3),
                Dot(0x01, 0x01, 0x02, 0x03, b0, b1, b2, b3), Dot(0x03, 0x01, 0x01, 0x02, b0, b1, b2, b3));
  }

  // ------------------------------------------------ InvMixColumn o MixColumn

  // InvMixColumn on the column (2s, s, s, 3s), the image under MixColumn of the
  // column whose first byte is s and whose other bytes are zero.

  lemma CoefficientSum0(s: bv8)
    ensures Dot(0x0e, 0x0b, 0x0d, 0x09, Mul(0x02, s), s, s, Mul(0x03, s)) == s
  {
    hide Mul, Product;
    SmallProducts(s);
    SmallProducts(Mul(0x02, s));
    SmallProducts(Mul(0x03, s));
  }

  lemma CoefficientSum1(s: bv8)
    ensures Dot(0x09, 0x0e, 0x0b, 0x0d, Mul(0x02, s), s, s, Mul(0x03, s)) == 0
  {
    hide Mul, Product;
    SmallProducts(s);
    SmallProducts(Mul(0x02, s));
    SmallProducts(Mul(0x03, s));
  }

  lemma CoefficientSum2(s: bv8)
    ensures Dot(0x0d, 0x09, 0x0e, 0x0b, Mul(0x02, s), s, s, Mul(0x03, s)) == 0
  {
    hide Mul, Product;
    SmallProducts(s);
    SmallProducts(Mul(0x02, s));
    SmallProducts(Mul(0x03, s));
  }

  lemma CoefficientSum3(s: bv8)
    ensures Dot(0x0b, 0x0d, 0x09, 0x0e, Mul(0x02, s), s, s, Mul(0x03, s)) == 0
  {
    hide Mul, Product;
    SmallProducts(s);
    SmallProducts(Mul(0x02, s));
    SmallProducts(Mul(0x03, s));
  }

  lemma DotRotates(c0: bv8, c1: bv8, c2: bv8, c3: bv8, s0: bv8, s1: bv8, s2: bv8, s3: bv8)
    ensures Dot(c3, c0, c1, c2, s3, s0, s1, s2) == Dot(c0, c1, c2, c3, s0, s1, s2, s3)
  {
    hide Mul, Xor8;
    var p0, p1, p2, p3 := Mul(c0, s0), Mul(c1, s1), Mul(c2, s2), Mul(c3, s3);
    Associative8(p3, p0, p1);
    Associative8(p3, Xor8(p0, p1), p2);
    Commutative8(p3, Xor8(Xor8(p0, p1), p2));
  }

  lemma MulByZero(c: bv8)
    ensures Mul(c, 0) == 0
  {
    hide Mul;
    assert Xor8(0, 0) == 0 && Xor8(Mul(c, 0), Mul(c, 0)) == 0;
    MulDistributes(c, 0, 0);
  }

  lemma MulByOne(s: bv8)
    ensures Mul(0x01, s) == s
  {
    hide Product, Mul, Xor8, XTime;
    SmallProducts(s);
  }

  lemma DotOfSingle(c0: bv8, c1: bv8, c2: bv8, c3: bv8, s: bv8)
    ensures Dot(c0, c1, c2, c3, s, 0, 0, 0) == Mul(c0, s)
    ensures Dot(c0, c1, c2, c3, 0, s, 0, 0) == Mul(c1, s)
    ensures Dot(c0, c1, c2, c3, 0, 0, s, 0) == Mul(c2, s)
    ensures Dot(c0, c1, c2, c3, 0, 0, 0, s) == Mul(c3, s)
  {
    hide Mul, Xor8;
    MulByZero(c0);
    MulByZero(c1);
    MulByZero(c2);
    MulByZero(c3);
    Zero8(0);
    Zero8(Mul(c0, s));
    Zero8(Mul(c1, s));
    Zero8(Mul(c2, s));
    Zero8(Mul(c3, s));
  }

  lemma InvMixUndoesMixOnByte0(s: bv8)
    ensures InvMixColumn(MixColumn(MakeWord(s, 0, 0, 0))) == MakeWord(s, 0, 0, 0)
  {
    hide Mul, Product, Dot, MakeWord, Bval, XTime;
    var d, t := Mul(0x02, s), Mul(0x03, s);
    BytesOfWord(s, 0, 0, 0);
    BytesOfWord(d, s, s, t);
    MulByOne(s);
    DotOfSingle(0x02, 0x03, 0x01, 0x01, s);
    DotOfSingle(0x01, 0x02, 0x03, 0x01, s);
    DotOfSingle(0x01, 0x01, 0x02, 0x03, s);
    DotOfSingle(0x03, 0x01, 0x01, 0x02, s);
    CoefficientSum0(s);
    CoefficientSum1(s);
    CoefficientSum2(s);
    CoefficientSum3(s);
  }

  lemma InvMixUndoesMixOnByte1(s: bv8)
    ensures InvMixColumn(MixColumn(MakeWord(0, s, 0, 0))) == MakeWord(0, s, 0, 0)
  {
    hide Mul, Product, Dot, MakeWord, Bval, XTime;
    var d, t := Mul(0x02, s), Mul(0x03, s);
    BytesOfWord(0, s, 0, 0);
    BytesOfWord(t, d, s, s);
    MulByOne(s);
    DotOfSingle(0x02, 0x03, 0x01, 0x01, s);
    DotOfSingle(0x01, 0x02, 0x03, 0x01, s);
    DotOfSingle(0x01, 0x01, 0x02, 0x03, s);
    DotOfSingle(0x03, 0x01, 0x01, 0x02, s);
    CoefficientSum0(s);
    CoefficientSum1(s);
    CoefficientSum2(s);
    CoefficientSum3(s);
    DotRotates(0x0e, 0x0b, 0x0d, 0x09, d, s, s, t);
    DotRotates(0x09, 0x0e, 0x0b, 0x0d, d, s, s, t);
    DotRotates(0x0d, 0x09, 0x0e, 0x0b, d, s, s, t);
    DotRotates(0x0b, 0x0d, 0x09, 0x0e, d, s, s, t);
  }

  lemma InvMixUndoesMixOnByte2(s: bv8)
    ensures InvMixColumn(MixColumn(MakeWord(0, 0, s, 0))) == MakeWord(0, 0, s, 0)
  {
    hide Mul, Product, Dot, MakeWord, Bval, XTime;
    var d, t := Mul(0x02, s), Mul(0x03, s);
    BytesOfWord(0, 0, s, 0);
    BytesOfWord(s, t, d, s);
    MulByOne(s);
    DotOfSingle(0x02, 0x03, 0x01, 0x01, s);
    DotOfSingle(0x01, 0x02, 0x03, 0x01, s);
    DotOfSingle(0x01, 0x01, 0x02, 0x03, s);
    DotOfSingle(0x03, 0x01, 0x01, 0x02, s);
    CoefficientSum0(s);
    CoefficientSum1(s);
    CoefficientSum2(s);
    CoefficientSum3(s);
    DotRotates(0x0e, 0x0b, 0x0d, 0x09, d, s, s, t);
    DotRotates(0x09, 0x0e, 0x0b, 0x0d, d, s, s, t);
    DotRotates(0x0d, 0x09, 0x0e, 0x0b, d, s, s, t);
    DotRotates(0x0b, 0x0d, 0x09, 0x0e, d, s, s, t);
    DotRotates(0x09, 0x0e, 0x0b, 0x0d, t, d, s, s);
    DotRotates(0x0d, 0x09, 0x0e, 0x0b, t, d, s, s);
    DotRotates(0x0b, 0x0d, 0x09, 0x0e, t, d, s, s);
    DotRotates(0x0e, 0x0b, 0x0d, 0x09, t, d, s, s);
  }

  lemma InvMixUndoesMixOnByte3(s: bv8)
    ensures InvMixColumn(MixColumn(MakeWord(0, 0, 0, s))) == MakeWord(0, 0, 0, s)
  {
    hide Mul, Product, Dot, MakeWord, Bval, XTime;
    var d, t := Mul(0x02, s), Mul(0x03, s);
    BytesOfWord(0, 0, 0, s);
    BytesOfWord(s, s, t, d);
    MulByOne(s);
    DotOfSingle(0x02, 0x03, 0x01, 0x01, s);
    DotOfSingle(0x01, 0x02, 0x03, 0x01, s);
    DotOfSingle(0x01, 0x01, 0x02, 0x03, s);
    DotOfSingle(0x03, 0x01, 0x01, 0x02, s);
    CoefficientSum0(s);
    CoefficientSum1(s);
    CoefficientSum2(s);
    CoefficientSum3(s);
    DotRotates(0x0b, 0x0d, 0x09, 0x0e, s, s, t, d);
    DotRotates(0x0e, 0x0b, 0x0d, 0x09, s, s, t, d);
    DotRotates(0x09, 0x0e, 0x0b, 0x0d, s, s, t, d);
    DotRotates(0x0d, 0x09, 0x0e, 0x0b, s, s, t, d);
  }

  lemma WordIsSumOfBytes(w: Word)
    ensures w == Xor(MakeWord(Bval(w, 0), 0, 0, 0),
                     Xor(MakeWord(0, Bval(w, 1), 0, 0),
                         Xor(MakeWord(0, 0, Bval(w, 2), 0), MakeWord(0, 0, 0, Bval(w, 3)))))
  {
  }

  lemma InvMixUndoesMix(w: Word)
    ensures InvMixColumn(MixColumn(w)) == w
  {
    hide MixColumn, InvMixColumn, Xor, MakeWord, Bval;
    var a, b := MakeWord(Bval(w, 0), 0, 0, 0), MakeWord(0, Bval(w, 1), 0, 0);
    var c, d := MakeWord(0, 0, Bval(w, 2), 0), MakeWord(0, 0, 0, Bval(w, 3));
    WordIsSumOfBytes(w);
    MixColumnDistributes(c, d);
    MixColumnDistributes(b, Xor(c, d));
    MixColumnDistributes(a, Xor(b, Xor(c, d)));
    InvMixColumnDistributes(MixColumn(c), MixColumn(d));
    InvMixColumnDistributes(MixColumn(b), Xor(MixColumn(c), MixColumn(d)));
    InvMixColumnDistributes(MixColumn(a), Xor(MixColumn(b), Xor(MixColumn(c), MixColumn(d))));
    InvMixUndoesMixOnByte0(Bval(w, 0));
    InvMixUndoesMixOnByte1(Bval(w, 1));
    InvMixUndoesMixOnByte2(Bval(w, 2));
    InvMixUndoesMixOnByte3(Bval(w, 3));
  }

  // ------------------------------------------------------------- the S-box

  /** Undoing the affine map of section 5.1.1 on an S-box output. */
  function FieldInverse(x: bv8): bv8 {
    var y := SBox(x);
    RotateLeft(y, 1) ^ RotateLeft(y, 3) ^ RotateLeft(y, 6) ^ 0x05
  }

  lemma AffineUndone(x: bv8)
    ensures Affine(FieldInverse(x)) == SBox(x)
  {
    hide SBox;
  }

  // The 256 entries of both tables, in halves to keep each proof small.

  lemma LowFieldEntries(x: bv8)
    requires x < 0x80
    ensures IsFieldInverse(x, FieldInverse(x))
  {
  }

  lemma HighFieldEntries(x: bv8)
    requires x >= 0x80
    ensures IsFieldInverse(x, FieldInverse(x))
  {
  }

  lemma LowInverseEntries(x: bv8)
    requires x < 0x80
    ensures InvSBox(SBox(x)) == x
  {
  }

  lemma HighInverseEntries(x: bv8)
    requires x >= 0x80
    ensures InvSBox(SBox(x)) == x
  {
  }

  /** The literal table is the S-box that FIPS 197 defines, the affine map of the
      field inverse, and the literal inverse table undoes it. */
  lemma TablesAreTheSBox(x: bv8)
    ensures exists i: bv8 :: IsFieldInverse(x, i) && SBox(x) == Affine(i)
    ensures InvSBox(SBox(x)) == x
  {
    hide SBox, InvSBox, IsFieldInverse, Affine, FieldInverse;
    AffineUndone(x);
    if x < 0x80 {
      LowFieldEntries(x);
      LowInverseEntries(x);
    } else {
      HighFieldEntries(x);
      HighInverseEntries(x);
    }
    var i := FieldInverse(x);
    assert IsFieldInverse(x, i) && SBox(x) == Affine(i);
  }
}
