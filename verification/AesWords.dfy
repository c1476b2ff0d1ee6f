/** Words, bytes and the lookup tables of the AES core.

    crypto/aes/aesopt.h fixes how the four bytes of a column are packed into a
    32-bit word (the little-endian platform order) and crypto/aes/aestab.c
    builds every table entry from the S-box data with the `f`, `u`, `v` and `w`
    macros.  The macros are expressions, so they are functions here. */
module AesWords {

  // ---------------------------------------------------------------- bytes

  /** uint_32t holding a column or a schedule word.  The wrapper keeps the bits
      out of proofs that only need the group laws of `Xor`. */
  datatype Word = Word(bits: bv32)

  function Bytes2Word(b0: bv32, b1: bv32, b2: bv32, b3: bv32): Word {
    Word((b3 << 24) | (b2 << 16) | (b1 << 8) | b0)
  }

  function Bval(x: Word, n: nat): bv8
    requires n < 4
  {
    if n == 0 then (x.bits & 0xff) as bv8
    else if n == 1 then ((x.bits >> 8) & 0xff) as bv8
    else if n == 2 then ((x.bits >> 16) & 0xff) as bv8
    else ((x.bits >> 24) & 0xff) as bv8
  }

  /** A byte used as a word, C's integer promotion. */
  function Wide(b: bv8): bv32 {
    b as bv32
  }

  /** The word whose bytes, lowest numbered first, are the arguments. */
  function MakeWord(b0: bv8, b1: bv8, b2: bv8, b3: bv8): Word {
    Bytes2Word(Wide(b0), Wide(b1), Wide(b2), Wide(b3))
  }

  // Packing and unpacking are inverse: a word is its four bytes.

  lemma BytesOfWord(b0: bv8, b1: bv8, b2: bv8, b3: bv8)
    ensures Bval(MakeWord(b0, b1, b2, b3), 0) == b0
    ensures Bval(MakeWord(b0, b1, b2, b3), 1) == b1
    ensures Bval(MakeWord(b0, b1, b2, b3), 2) == b2
    ensures Bval(MakeWord(b0, b1, b2, b3), 3) == b3
  {
  }

  lemma BitsOfBytes(b: bv32)
    ensures MakeWord(Bval(Word(b), 0), Bval(Word(b), 1), Bval(Word(b), 2), Bval(Word(b), 3)).bits == b
  {
  }

  lemma WordIsItsBytes(w: Word)
    ensures MakeWord(Bval(w, 0), Bval(w, 1), Bval(w, 2), Bval(w, 3)) == w
  {
    hide MakeWord, Bval;
    BitsOfBytes(w.bits);
  }

  // The `^` of the source.  It is named, so that a proof can hide it and work
  // with the group laws below instead of with bits.

  function Xor8(a: bv8, b: bv8): bv8 {
    a ^ b
  }

  function Xor32(a: bv32, b: bv32): bv32 {
    a ^ b
  }

  function Xor(a: Word, b: Word): Word {
    Word(Xor32(a.bits, b.bits))
  }

  const ZERO := Word(0)

  lemma Associative8(a: bv8, b: bv8, c: bv8)
    ensures Xor8(Xor8(a, b), c) == Xor8(a, Xor8(b, c))
  {
  }

  lemma Commutative8(a: bv8, b: bv8)
    ensures Xor8(a, b) == Xor8(b, a)
  {
  }

  lemma Zero8(a: bv8)
    ensures Xor8(a, 0) == a && Xor8(0, a) == a
  {
  }

  lemma AssociativeBits(a: bv32, b: bv32, c: bv32)
    ensures Xor32(Xor32(a, b), c) == Xor32(a, Xor32(b, c))
  {
  }

  lemma Associative(a: Word, b: Word, c: Word)
    ensures Xor(Xor(a, b), c) == Xor(a, Xor(b, c))
  {
    hide Xor32;
    AssociativeBits(a.bits, b.bits, c.bits);
  }

  lemma Commutative(a: Word, b: Word)
    ensures Xor(a, b) == Xor(b, a)
  {
  }

  lemma Cancels(a: Word)
    ensures Xor(a, a) == ZERO
    ensures Xor(a, ZERO) == a
  {
  }

  /** The laws in the forms the proofs use most. */
  lemma XorTwice(a: Word, b: Word)
    ensures Xor(a, Xor(a, b)) == b
    ensures Xor(a, Xor(b, a)) == b
    ensures Xor(Xor(b, a), a) == b
  {
    hide Xor;
    Cancels(a);
    Cancels(b);
    Commutative(ZERO, b);
    Associative(a, a, b);
    Commutative(a, b);
    Commutative(a, Xor(a, b));
  }

  lemma Exchange(a: Word, b: Word, c: Word)
    ensures Xor(a, Xor(b, c)) == Xor(b, Xor(a, c))
  {
    hide Xor;
    Associative(a, b, c);
    Associative(b, a, c);
    Commutative(a, b);
  }

  lemma Interchange8(a: bv8, b: bv8, c: bv8, d: bv8)
    ensures Xor8(Xor8(a, b), Xor8(c, d)) == Xor8(Xor8(a, c), Xor8(b, d))
  {
    hide Xor8;
    Associative8(a, b, Xor8(c, d));
    Associative8(b, c, d);
    Associative8(c, b, d);
    Commutative8(b, c);
    Associative8(a, c, Xor8(b, d));
  }

  lemma BvalOfXor(v: bv32, w: bv32)
    ensures Bval(Word(v ^ w), 0) == Bval(Word(v), 0) ^ Bval(Word(w), 0)
    ensures Bval(Word(v ^ w), 1) == Bval(Word(v), 1) ^ Bval(Word(w), 1)
    ensures Bval(Word(v ^ w), 2) == Bval(Word(v), 2) ^ Bval(Word(w), 2)
    ensures Bval(Word(v ^ w), 3) == Bval(Word(v), 3) ^ Bval(Word(w), 3)
  {
  }

  lemma XorBytewise(v: Word, w: Word)
    ensures Bval(Xor(v, w), 0) == Xor8(Bval(v, 0), Bval(w, 0))
    ensures Bval(Xor(v, w), 1) == Xor8(Bval(v, 1), Bval(w, 1))
    ensures Bval(Xor(v, w), 2) == Xor8(Bval(v, 2), Bval(w, 2))
    ensures Bval(Xor(v, w), 3) == Xor8(Bval(v, 3), Bval(w, 3))
  {
    hide Bval;
    var p, q := v.bits, w.bits;
    BvalOfXor(p, q);
    assert v == Word(p) && w == Word(q) && Xor(v, w) == Word(p ^ q);
  }

  lemma XorMakeWord(a0: bv8, a1: bv8, a2: bv8, a3: bv8, b0: bv8, b1: bv8, b2: bv8, b3: bv8)
    ensures Xor(MakeWord(a0, a1, a2, a3), MakeWord(b0, b1, b2, b3))
         == MakeWord(Xor8(a0, b0), Xor8(a1, b1), Xor8(a2, b2), Xor8(a3, b3))
  {
  }

  // ------------------------------------------------------- S-box literals

  /** `sb_data`, one row of sixteen entries at a time, first entry highest. */
  function SBox(x: bv8): bv8 {
    var row: bv128 :=
      match x >> 4
      case 0x0 => 0x637c777bf26b6fc53001672bfed7ab76
      case 0x1 => 0xca82c97dfa5947f0add4a2af9ca472c0
      case 0x2 => 0xb7fd9326363ff7cc34a5e5f171d83115
      case 0x3 => 0x04c723c31896059a071280e2eb27b275
      case 0x4 => 0x09832c1a1b6e5aa0523bd6b329e32f84
      case 0x5 => 0x53d100ed20fcb15b6acbbe394a4c58cf
      case 0x6 => 0xd0efaafb434d338545f9027f503c9fa8
      case 0x7 => 0x51a3408f929d38f5bcb6da2110fff3d2
      case 0x8 => 0xcd0c13ec5f974417c4a77e3d645d1973
      case 0x9 => 0x60814fdc222a908846eeb814de5e0bdb
      case 0xa => 0xe0323a0a4906245cc2d3ac629195e479
      case 0xb => 0xe7c8376d8dd54ea96c56f4ea657aae08
      case 0xc => 0xba78252e1ca6b4c6e8dd741f4bbd8b8a
      case 0xd => 0x703eb5664803f60e613557b986c11d9e
      case 0xe => 0xe1f8981169d98e949b1e87e9ce5528df
      case _ => 0x8ca1890dbfe6426841992d0fb054bb16
      ;
    ((row >> (120 - 8 * (x & 0x0f))) & 0xff) as bv8
  }

  /** `isb_data`, in the same layout. */
  function InvSBox(x: bv8): bv8 {
    var row: bv128 :=
      match x >> 4
      case 0x0 => 0x52096ad53036a538bf40a39e81f3d7fb
      case 0x1 => 0x7ce339829b2fff87348e4344c4dee9cb
      case 0x2 => 0x547b9432a6c2233dee4c950b42fac34e
      case 0x3 => 0x082ea16628d924b2765ba2496d8bd125
      case 0x4 => 0x72f8f66486689816d4a45ccc5d65b692
      case 0x5 => 0x6c704850fdedb9da5e154657a78d9d84
      case 0x6 => 0x90d8ab008cbcd30af7e45805b8b34506
      case 0x7 => 0xd02c1e8fca3f0f02c1afbd0301138a6b
      case 0x8 => 0x3a9111414f67dcea97f2cfcef0b4e673
      case 0x9 => 0x96ac7422e7ad3585e2f937e81c75df6e
      case 0xa => 0x47f11a711d29c5896fb7620eaa18be1b
      case 0xb => 0xfc563e4bc6d279209adbc0fe78cd5af4
      case 0xc => 0x1fdda8338807c731b11210592780ec5f
      case 0xd => 0x60517fa919b54a0d2de57a9f93c99cef
      case 0xe => 0xa0e03b4dae2af5b0c8ebbb3c83539961
      case _ => 0x172b047eba77d626e169146355210c7d
      ;
    ((row >> (120 - 8 * (x & 0x0f))) & 0xff) as bv8
  }
}
