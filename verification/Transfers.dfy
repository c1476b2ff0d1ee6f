/** Calls that move as many bytes as they like, up to a limit. */
module Transfers {

  function Min(a: nat, b: nat): nat {
    if a <= b then a else b
  }

  /** How many bytes the next call moves when it may move `limit`: the stream's
      own choice, 0 for an error. */
  function Moved(sizes: seq<int>, limit: nat): (n: nat)
    ensures n <= limit
  {
    if sizes == [] || sizes[0] <= 0 then 0 else Min(sizes[0], limit)
  }

  /** `num` bytes come through in calls of at most `most`, with `available` to come. */
  predicate Suffices(sizes: seq<int>, most: nat, available: nat, num: nat)
    decreases num
  {
    num == 0 ||
    var n := Moved(sizes, Min(if num >= most then most else num, available));
    n > 0 && Suffices(sizes[1..], most, available - n, num - n)
  }

  lemma SufficesNothing(sizes: seq<int>, most: nat, available: nat)
    ensures Suffices(sizes, most, available, 0)
  {
  }

  lemma SufficesStep(sizes: seq<int>, most: nat, available: nat, num: nat)
    requires num > 0
    ensures var n := Moved(sizes, Min(if num >= most then most else num, available));
            && (n > 0 ==> sizes != [])
            && (Suffices(sizes, most, available, num)
                <==> n > 0 && Suffices(sizes[1..], most, available - n, num - n))
  {
  }

  /** Every call moves something, and there are at least n of them to come. */
  predicate Steady(sizes: seq<int>, n: nat) {
    n <= |sizes| && forall i :: 0 <= i < |sizes| ==> sizes[i] > 0
  }

  lemma SteadyStep(sizes: seq<int>, available: nat, moved: nat)
    requires sizes != [] && 0 < moved <= available
    ensures Steady(sizes, available) ==> Steady(sizes[1..], available - moved)
  {
  }

  lemma SteadyMoves(sizes: seq<int>, available: nat, limit: nat)
    ensures Steady(sizes, available) ==> (Moved(sizes, Min(limit, available)) > 0 <==> limit > 0 && available > 0)
    ensures Moved(sizes, Min(limit, available)) > 0 ==> sizes != []
  {
  }

  /** A steady stream gets everything through, in pieces of whatever size. */
  lemma {:induction false} SteadySuffices(sizes: seq<int>, most: nat, available: nat, num: nat)
    requires most > 0 && num <= available && Steady(sizes, num)
    ensures Suffices(sizes, most, available, num)
    decreases num
  {
    if num > 0 {
      var n := Moved(sizes, Min(if num >= most then most else num, available));
      SteadySuffices(sizes[1..], most, available - n, num - n);
    }
  }

  lemma {:induction false} SufficesNeedsBytes(sizes: seq<int>, most: nat, available: nat, num: nat)
    requires Suffices(sizes, most, available, num)
    ensures num <= available
    decreases num
  {
    if num > 0 {
      var n := Moved(sizes, Min(if num >= most then most else num, available));
      SufficesNeedsBytes(sizes[1..], most, available - n, num - n);
    }
  }

  lemma SteadyReads(sizes: seq<int>, most: nat, available: nat, num: nat)
    ensures most > 0 && Steady(sizes, available) ==> (Suffices(sizes, most, available, num) <==> num <= available)
  {
    if Suffices(sizes, most, available, num) {
      SufficesNeedsBytes(sizes, most, available, num);
    } else if most > 0 && Steady(sizes, available) && num <= available {
      SteadySuffices(sizes, most, available, num);
    }
  }
}
