/** The compile-time tables and table expressions of the AES core.

    With FIXED_TABLES and FOUR_TABLES every table entry is one of the `u`, `v`
    and `w` macros of crypto/aes/aestab.c applied to an S-box byte, and every
    round, `ls_box` and `inv_mcol` is the `four_tables` expression of
    crypto/aes/aesopt.h over one of those tables. */
module AesTables {
  import opened AesWords

  // ------------------------------------- byte multiples, crypto/aes/aestab.c

  const WPOLY: bv32 := 0x011b

  function F2(x: bv32): bv32 {
    (x << 1) ^ (((x >> 7) & 1) * WPOLY)
  }

  function F4(x: bv32): bv32 {
    (x << 2) ^ (((x >> 6) & 1) * WPOLY) ^ (((x >> 6) & 2) * WPOLY)
  }

  function F8(x: bv32): bv32 {
    (x << 3) ^ (((x >> 5) & 1) * WPOLY) ^ (((x >> 5) & 2) * WPOLY) ^ (((x >> 5) & 4) * WPOLY)
  }

  function F3(x: bv32): bv32 { Xor32(F2(x), x) }
  function F9(x: bv32): bv32 { Xor32(F8(x), x) }
  function FB(x: bv32): bv32 { Xor32(Xor32(F8(x), F2(x)), x) }
  function FD(x: bv32): bv32 { Xor32(Xor32(F8(x), F4(x)), x) }
  function FE(x: bv32): bv32 { Xor32(Xor32(F8(x), F4(x)), F2(x)) }

  // --------------------------------------------------------------- tables

  /** t_fn, t_fl (which also serves `ls_box`), t_in, t_il and t_im. */
  datatype Table = ForwardNormal | ForwardLast | InverseNormal | InverseLast | InverseMix

  function U(r: nat, p: bv32): Word {
    match r
    case 0 => Bytes2Word(F2(p), p, p, F3(p))
    case 1 => Bytes2Word(F3(p), F2(p), p, p)
    case 2 => Bytes2Word(p, F3(p), F2(p), p)
    case _ => Bytes2Word(p, p, F3(p), F2(p))
  }

  function V(r: nat, p: bv32): Word {
    match r
    case 0 => Bytes2Word(FE(p), F9(p), FD(p), FB(p))
    case 1 => Bytes2Word(FB(p), FE(p), F9(p), FD(p))
    case 2 => Bytes2Word(FD(p), FB(p), FE(p), F9(p))
    case _ => Bytes2Word(F9(p), FD(p), FB(p), FE(p))
  }

  function W(r: nat, p: bv32): Word {
    match r
    case 0 => Bytes2Word(p, 0, 0, 0)
    case 1 => Bytes2Word(0, p, 0, 0)
    case 2 => Bytes2Word(0, 0, p, 0)
    case _ => Bytes2Word(0, 0, 0, p)
  }

  /** Element [r][b] of a table; `mm_data` is the identity. */
  function Entry(t: Table, r: nat, b: bv8): Word {
    match t
    case ForwardNormal => U(r, Wide(SBox(b)))
    case ForwardLast => W(r, Wide(SBox(b)))
    case InverseNormal => V(r, Wide(InvSBox(b)))
    case InverseLast => W(r, Wide(InvSBox(b)))
    case InverseMix => V(r, Wide(b))
  }

  /** `rc_data(w0)`. */
  function RcTable(i: nat): Word
    requires i < 10
  {
    W(0, match i
         case 0 => 0x01 case 1 => 0x02 case 2 => 0x04 case 3 => 0x08 case 4 => 0x10
         case 5 => 0x20 case 6 => 0x40 case 7 => 0x80 case 8 => 0x1b case _ => 0x36)
  }

  // -------------------------------------- expressions of crypto/aes/aesopt.h

  /** `four_tables` once `vf` and `rf` have chosen the four bytes. */
  function FourTables(t: Table, b0: bv8, b1: bv8, b2: bv8, b3: bv8): Word {
    Xor(Xor(Xor(Entry(t, 0, b0), Entry(t, 1, b1)), Entry(t, 2, b2)), Entry(t, 3, b3))
  }

  function Rf2(r: nat, c: nat): nat
    requires c < 4
  {
    (8 + r - c) % 4
  }

  function LsBox(x: Word, c: nat): Word
    requires c < 4
  {
    FourTables(ForwardLast, Bval(x, Rf2(0, c)), Bval(x, Rf2(1, c)), Bval(x, Rf2(2, c)), Bval(x, Rf2(3, c)))
  }

  function InvMcol(x: Word): Word {
    FourTables(InverseMix, Bval(x, 0), Bval(x, 1), Bval(x, 2), Bval(x, 3))
  }
}

/** The table expressions compute the transformations of FIPS 197. */
module AesTablesFacts {
  import opened AesWords
  import opened AesTables
  import opened Fips197
  import opened Fips197Facts

  // -------------------------------------------------------- byte multiples

  lemma F2IsXTime(b: bv8)
    ensures F2(Wide(b)) == Wide(XTime(b))
  {
  }

  lemma F4IsXTimeTwice(b: bv8)
    ensures F4(Wide(b)) == Wide(XTime(XTime(b)))
  {
  }

  lemma F8IsXTimeThrice(b: bv8)
    ensures F8(Wide(b)) == Wide(XTime(XTime(XTime(b))))
  {
  }

  lemma Widen(a: bv8, b: bv8)
    ensures Xor32(Wide(a), Wide(b)) == Wide(Xor8(a, b))
  {
  }

  lemma Multiples(b: bv8)
    ensures F2(Wide(b)) == Wide(Mul(0x02, b))
    ensures F3(Wide(b)) == Wide(Mul(0x03, b))
    ensures F9(Wide(b)) == Wide(Mul(0x09, b))
    ensures FB(Wide(b)) == Wide(Mul(0x0b, b))
    ensures FD(Wide(b)) == Wide(Mul(0x0d, b))
    ensures FE(Wide(b)) == Wide(Mul(0x0e, b))
  {
    hide XTime, Mul, Product, F2, F4, F8, Xor32, Xor8, Wide;
    var b1 := XTime(b);
    var b2 := XTime(b1);
    var b3 := XTime(b2);
    SmallProducts(b);
    F2IsXTime(b);
    F4IsXTimeTwice(b);
    F8IsXTimeThrice(b);
    Widen(b1, b);
    Commutative8(b1, b);
    Widen(b3, b);
    Commutative8(b3, b);
    Widen(b3, b1);
    Widen(Xor8(b3, b1), b);
    Commutative8(b3, b1);
    Commutative8(Xor8(b1, b3), b);
    Widen(b3, b2);
    Widen(Xor8(b3, b2), b);
    Commutative8(b3, b2);
    Commutative8(Xor8(b2, b3), b);
    Widen(Xor8(b3, b2), b1);
    Commutative8(Xor8(b2, b3), b1);
  }

  // ---------------------------------------------------------------- columns

  lemma SumOfWords(a0: bv8, a1: bv8, a2: bv8, a3: bv8, b0: bv8, b1: bv8, b2: bv8, b3: bv8,
                   c0: bv8, c1: bv8, c2: bv8, c3: bv8, d0: bv8, d1: bv8, d2: bv8, d3: bv8)
    ensures Xor(Xor(Xor(MakeWord(a0, a1, a2, a3), MakeWord(b0, b1, b2, b3)), MakeWord(c0, c1, c2, c3)),
                MakeWord(d0, d1, d2, d3))
         == MakeWord(Xor8(Xor8(Xor8(a0, b0), c0), d0), Xor8(Xor8(Xor8(a1, b1), c1), d1),
                     Xor8(Xor8(Xor8(a2, b2), c2), d2), Xor8(Xor8(Xor8(a3, b3), c3), d3))
  {
    hide Xor, Xor8, MakeWord;
    XorMakeWord(a0, a1, a2, a3, b0, b1, b2, b3);
    XorMakeWord(Xor8(a0, b0), Xor8(a1, b1), Xor8(a2, b2), Xor8(a3, b3), c0, c1, c2, c3);
    XorMakeWord(Xor8(Xor8(a0, b0), c0), Xor8(Xor8(a1, b1), c1), Xor8(Xor8(a2, b2), c2), Xor8(Xor8(a3, b3), c3),
                d0, d1, d2, d3);
  }

  lemma UEntries(p: bv8)
    ensures U(0, Wide(p)) == MakeWord(Mul(0x02, p), p, p, Mul(0x03, p))
    ensures U(1, Wide(p)) == MakeWord(Mul(0x03, p), Mul(0x02, p), p, p)
    ensures U(2, Wide(p)) == MakeWord(p, Mul(0x03, p), Mul(0x02, p), p)
    ensures U(3, Wide(p)) == MakeWord(p, p, Mul(0x03, p), Mul(0x02, p))
  {
    hide Mul, F2, F3, Bytes2Word, Wide;
    Multiples(p);
  }

  lemma VEntries(p: bv8)
    ensures V(0, Wide(p)) == MakeWord(Mul(0x0e, p), Mul(0x09, p), Mul(0x0d, p), Mul(0x0b, p))
    ensures V(1, Wide(p)) == MakeWord(Mul(0x0b, p), Mul(0x0e, p), Mul(0x09, p), Mul(0x0d, p))
    ensures V(2, Wide(p)) == MakeWord(Mul(0x0d, p), Mul(0x0b, p), Mul(0x0e, p), Mul(0x09, p))
    ensures V(3, Wide(p)) == MakeWord(Mul(0x09, p), Mul(0x0d, p), Mul(0x0b, p), Mul(0x0e, p))
  {
    hide Mul, FE, F9, FD, FB, Bytes2Word, Wide;
    Multiples(p);
  }

  lemma WEntries(p: bv8)
    ensures W(0, Wide(p)) == MakeWord(p, 0, 0, 0)
    ensures W(1, Wide(p)) == MakeWord(0, p, 0, 0)
    ensures W(2, Wide(p)) == MakeWord(0, 0, p, 0)
    ensures W(3, Wide(p)) == MakeWord(0, 0, 0, p)
  {
  }

  /** The sums of `u` entries, `v` entries and `w` entries. */
  lemma SumOfU(p0: bv8, p1: bv8, p2: bv8, p3: bv8)
    ensures Xor(Xor(Xor(U(0, Wide(p0)), U(1, Wide(p1))), U(2, Wide(p2))), U(3, Wide(p3)))
         == MixColumn(MakeWord(p0, p1, p2, p3))
  {
    hide Xor, Xor8, Mul, U, MakeWord, Bval, Wide;
    UEntries(p0);
    UEntries(p1);
    UEntries(p2);
    UEntries(p3);
    MulByOne(p0);
    MulByOne(p1);
    MulByOne(p2);
    MulByOne(p3);
    BytesOfWord(p0, p1, p2, p3);
    SumOfWords(Mul(0x02, p0), p0, p0, Mul(0x03, p0), Mul(0x03, p1), Mul(0x02, p1), p1, p1,
               p2, Mul(0x03, p2), Mul(0x02, p2), p2, p3, p3, Mul(0x03, p3), Mul(0x02, p3));
  }

  lemma SumOfV(p0: bv8, p1: bv8, p2: bv8, p3: bv8)
    ensures Xor(Xor(Xor(V(0, Wide(p0)), V(1, Wide(p1))), V(2, Wide(p2))), V(3, Wide(p3)))
         == InvMixColumn(MakeWord(p0, p1, p2, p3))
  {
    hide Xor, Xor8, Mul, V, MakeWord, Bval, Wide;
    VEntries(p0);
    VEntries(p1);
    VEntries(p2);
    VEntries(p3);
    BytesOfWord(p0, p1, p2, p3);
    SumOfWords(Mul(0x0e, p0), Mul(0x09, p0), Mul(0x0d, p0), Mul(0x0b, p0),
               Mul(0x0b, p1), Mul(0x0e, p1), Mul(0x09, p1), Mul(0x0d, p1),
               Mul(0x0d, p2), Mul(0x0b, p2), Mul(0x0e, p2), Mul(0x09, p2),
               Mul(0x09, p3), Mul(0x0d, p3), Mul(0x0b, p3), Mul(0x0e, p3));
  }

  lemma SumOfW(p0: bv8, p1: bv8, p2: bv8, p3: bv8)
    ensures Xor(Xor(Xor(W(0, Wide(p0)), W(1, Wide(p1))), W(2, Wide(p2))), W(3, Wide(p3)))
         == MakeWord(p0, p1, p2, p3)
  {
    hide Xor, Xor8, W, MakeWord, Wide;
    WEntries(p0);
    WEntries(p1);
    WEntries(p2);
    WEntries(p3);
    SumOfWords(p0, 0, 0, 0, 0, p1, 0, 0, 0, 0, p2, 0, 0, 0, 0, p3);
    Zero8(0);
    Zero8(p0);
    Zero8(p1);
    Zero8(p2);
    Zero8(p3);
  }

  // What each table computes on four bytes.

  lemma ForwardNormalSum(b0: bv8, b1: bv8, b2: bv8, b3: bv8)
    ensures FourTables(ForwardNormal, b0, b1, b2, b3) == MixColumn(MakeWord(SBox(b0), SBox(b1), SBox(b2), SBox(b3)))
  {
    hide U, V, W, Xor, SBox, InvSBox, MakeWord, MixColumn, InvMixColumn, Wide, Bval;
    SumOfU(SBox(b0), SBox(b1), SBox(b2), SBox(b3));
  }

  lemma ForwardLastSum(b0: bv8, b1: bv8, b2: bv8, b3: bv8)
    ensures FourTables(ForwardLast, b0, b1, b2, b3) == MakeWord(SBox(b0), SBox(b1), SBox(b2), SBox(b3))
  {
    hide U, V, W, Xor, SBox, InvSBox, MakeWord, MixColumn, InvMixColumn, Wide, Bval;
    SumOfW(SBox(b0), SBox(b1), SBox(b2), SBox(b3));
  }

  lemma InverseNormalSum(b0: bv8, b1: bv8, b2: bv8, b3: bv8)
    ensures FourTables(InverseNormal, b0, b1, b2, b3)
        == InvMixColumn(MakeWord(InvSBox(b0), InvSBox(b1), InvSBox(b2), InvSBox(b3)))
  {
    hide U, V, W, Xor, SBox, InvSBox, MakeWord, MixColumn, InvMixColumn, Wide, Bval;
    SumOfV(InvSBox(b0), InvSBox(b1), InvSBox(b2), InvSBox(b3));
  }

  lemma InverseLastSum(b0: bv8, b1: bv8, b2: bv8, b3: bv8)
    ensures FourTables(InverseLast, b0, b1, b2, b3) == MakeWord(InvSBox(b0), InvSBox(b1), InvSBox(b2), InvSBox(b3))
  {
    hide U, V, W, Xor, SBox, InvSBox, MakeWord, MixColumn, InvMixColumn, Wide, Bval;
    SumOfW(InvSBox(b0), InvSBox(b1), InvSBox(b2), InvSBox(b3));
  }

  lemma InverseMixSum(b0: bv8, b1: bv8, b2: bv8, b3: bv8)
    ensures FourTables(InverseMix, b0, b1, b2, b3) == InvMixColumn(MakeWord(b0, b1, b2, b3))
  {
    hide U, V, W, Xor, SBox, InvSBox, MakeWord, MixColumn, InvMixColumn, Wide, Bval;
    SumOfV(b0, b1, b2, b3);
  }

  // --------------------------------------------- key schedule expressions

  /** `ls_box(x,3)` is SubWord(RotWord(x)) and `ls_box(x,0)` is SubWord(x). */
  lemma LsBoxMeaning(x: Word)
    ensures LsBox(x, 3) == SubWord(RotWord(x))
    ensures LsBox(x, 0) == SubWord(x)
  {
    hide FourTables, SBox, MixColumn, InvMixColumn, Bytes2Word, Bval, Wide, MakeWord;
    BytesOfWord(Bval(x, 1), Bval(x, 2), Bval(x, 3), Bval(x, 0));
    ForwardLastSum(Bval(x, 1), Bval(x, 2), Bval(x, 3), Bval(x, 0));
    ForwardLastSum(Bval(x, 0), Bval(x, 1), Bval(x, 2), Bval(x, 3));
  }

  lemma InvMcolMeaning(x: Word)
    ensures InvMcol(x) == InvMixColumn(x)
  {
    hide FourTables, InvMixColumn, MixColumn, Bval, MakeWord;
    InverseMixSum(Bval(x, 0), Bval(x, 1), Bval(x, 2), Bval(x, 3));
    WordIsItsBytes(x);
  }

  lemma InvMcolDistributes(v: Word, w: Word)
    ensures InvMcol(Xor(v, w)) == Xor(InvMcol(v), InvMcol(w))
  {
    hide InvMcol, InvMixColumn, Xor;
    InvMcolMeaning(v);
    InvMcolMeaning(w);
    InvMcolMeaning(Xor(v, w));
    InvMixColumnDistributes(v, w);
  }

  lemma {:induction false} XPowers(i: nat)
    requires 0 < i <= 10
    ensures RcTable(i - 1) == Rcon(i)
  {
    assert XPower(1) == 0x01;
    assert XPower(2) == 0x02;
    assert XPower(3) == 0x04;
    assert XPower(4) == 0x08;
    assert XPower(5) == 0x10;
    assert XPower(6) == 0x20;
    assert XPower(7) == 0x40;
    assert XPower(8) == 0x80;
    assert XPower(9) == 0x1b;
    assert XPower(10) == 0x36;
    WEntries(XPower(i));
    hide XTime, MakeWord, XPower;
  }
}
