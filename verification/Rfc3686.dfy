/** crypto/aes/rfc3686.cpp: the counter step of RFC 3686, given to `aes_ctr_crypt`. */
module Rfc3686 {
  import opened AesCounter

  /** One more than b, or 0 after 255. */
  function Next8(b: bv8): bv8 {
    b + 1
  }

  /** rfc3686_inc as a function of the sixteen bytes. */
  function Incremented(c: seq<bv8>): (d: seq<bv8>)
    ensures |d| == |c|
  {
    if |c| != 16 then c
    else
      var c15 := c[15 := Next8(c[15])];
      if c15[15] != 0 then c15 else
        var c14 := c15[14 := Next8(c[14])];
        if c14[14] != 0 then c14 else
          var c13 := c14[13 := Next8(c[13])];
          if c13[13] != 0 then c13 else c13[12 := Next8(c[12])]
  }

  method Rfc3686Inc(buf: array<bv8>)
    requires buf.Length == 16
    modifies buf
    ensures buf[..] == Incremented(old(buf[..]))
  {
    hide Next8;
    buf[15] := Next8(buf[15]);
    if buf[15] == 0 {
      buf[14] := Next8(buf[14]);
      if buf[14] == 0 {
        buf[13] := Next8(buf[13]);
        if buf[13] == 0 {
          buf[12] := Next8(buf[12]);
        }
      }
    }
  }

  /** The last four bytes as a number. */
  const BLOCKS := 0x1_0000_0000

  function Digit(b: bv8): (n: nat)
    ensures n < 256
  {
    b as int
  }

  function Number(a: nat, b: nat, c: nat, d: nat): nat {
    ((a * 256 + b) * 256 + c) * 256 + d
  }

  function Low(c: seq<bv8>): nat
    requires |c| == 16
  {
    Number(Digit(c[12]), Digit(c[13]), Digit(c[14]), Digit(c[15]))
  }

  function NextNumber(a: nat, b: nat, c: nat, d: nat): nat {
    if d < 255 then Number(a, b, c, d + 1)
    else if c < 255 then Number(a, b, c + 1, 0)
    else if b < 255 then Number(a, b + 1, 0, 0)
    else Number(if a < 255 then a + 1 else 0, 0, 0, 0)
  }

  lemma Carry(a: nat, b: nat, c: nat, d: nat)
    requires a < 256 && b < 256 && c < 256 && d < 256
    ensures Number(a, b, c, d) < BLOCKS
    ensures NextNumber(a, b, c, d) == (Number(a, b, c, d) + 1) % BLOCKS
  {
  }

  lemma NextDigit(b: bv8)
    ensures Digit(Next8(b)) == if Digit(b) == 255 then 0 else Digit(b) + 1
    ensures Digit(b) == 0 <==> b == 0
  {
  }

  /** It counts: the block number goes up by one, modulo 2^32, and the rest stays. */
  lemma IncrementCounts(c: seq<bv8>)
    requires |c| == 16
    ensures Low(Incremented(c)) == (Low(c) + 1) % BLOCKS && Incremented(c)[..12] == c[..12]
  {
    hide Digit, Next8, Number;
    Carry(Digit(c[12]), Digit(c[13]), Digit(c[14]), Digit(c[15]));
    NextDigit(c[15]);
    NextDigit(c[14]);
    NextDigit(c[13]);
    NextDigit(c[12]);
    NextDigit(Next8(c[15]));
    NextDigit(Next8(c[14]));
    NextDigit(Next8(c[13]));
  }

  /** The block number is big-endian in the last four bytes. */
  lemma LowIsBigEndian(c: seq<bv8>)
    requires |c| == 16
    ensures Low(c) == 0x100_0000 * c[12] as int + 0x1_0000 * c[13] as int + 0x100 * c[14] as int + c[15] as int
  {
  }

  lemma CountOn(l: nat, j: nat)
    ensures ((l + j) % BLOCKS + 1) % BLOCKS == (l + (j + 1)) % BLOCKS
  {
  }

  lemma NoRepeat(l: nat, i: nat, j: nat)
    requires i < j < i + BLOCKS
    ensures (l + i) % BLOCKS != (l + j) % BLOCKS
  {
  }

  lemma {:induction false} BlockNumber(ctr: seq<bv8>, j: nat)
    requires |ctr| == 16
    ensures Low(CounterBlock(Incremented, ctr, j)) == (Low(ctr) + j) % BLOCKS
    ensures CounterBlock(Incremented, ctr, j)[..12] == ctr[..12]
    decreases j
  {
    hide Low, Incremented;
    if j > 0 {
      BlockNumber(ctr, j - 1);
      IncrementCounts(CounterBlock(Incremented, ctr, j - 1));
      CountOn(Low(ctr), j - 1);
    } else {
      LowFits(ctr);
    }
  }

  lemma LowFits(c: seq<bv8>)
    requires |c| == 16
    ensures Low(c) % BLOCKS == Low(c)
  {
    hide Digit, Number;
    Carry(Digit(c[12]), Digit(c[13]), Digit(c[14]), Digit(c[15]));
  }

  /** Within 2^32 blocks of one call or many no counter block comes twice. */
  lemma CountersDiffer(ctr: seq<bv8>, i: nat, j: nat)
    requires |ctr| == 16 && i < j < i + BLOCKS
    ensures CounterBlock(Incremented, ctr, i) != CounterBlock(Incremented, ctr, j)
  {
    hide Low, CounterBlock;
    BlockNumber(ctr, i);
    BlockNumber(ctr, j);
    NoRepeat(Low(ctr), i, j);
  }
}
