/** The padded 32-bit sequence counter of sequence.go. */
module Sequencer {
  import opened Entries

  /** Unsigned 32-bit increment: wraps from 2^32 - 1 back to 0. */
  function Succ(x: u32): (r: u32)
    ensures r == (x + 1) % TwoTo32
    ensures Pred(r) == x
  {
    if x == TwoTo32 - 1 then 0 else x + 1
  }

  /** Unsigned 32-bit decrement: wraps from 0 to 2^32 - 1. */
  function Pred(x: u32): (r: u32)
    ensures r == (x + TwoTo32 - 1) % TwoTo32
  {
    if x == 0 then TwoTo32 - 1 else x - 1
  }

  /** The values handed out by k consecutive calls of Next on a counter
      that stands at s. */
  function Issued(s: u32, k: nat): (r: seq<u32>)
    ensures |r| == k
    decreases k
  {
    if k == 0 then [] else [s] + Issued(Succ(s), k - 1)
  }

  /** Call number i (0-based) of a run of Next calls started at s returns
      s + i modulo 2^32. */
  lemma {:induction false} IssuedAt(s: u32, k: nat, i: nat)
    requires i < k
    ensures Issued(s, k)[i] == (s + i) % TwoTo32
    decreases k
  {
    if i > 0 {
      IssuedAt(Succ(s), k - 1, i - 1);
    }
  }

  /** Up to 2^32 consecutive Next calls never hand out the same value twice. */
  lemma IssuedDistinct(s: u32, k: nat)
    requires k <= TwoTo32
    ensures forall i, j :: 0 <= i < j < k ==> Issued(s, k)[i] != Issued(s, k)[j]
  {
    forall i, j | 0 <= i < j < k
      ensures Issued(s, k)[i] != Issued(s, k)[j]
    {
      IssuedAt(s, k, i);
      IssuedAt(s, k, j);
    }
  }

  /** From a fresh counter, k <= 2^32 calls hand out exactly 0, 1, ..., k - 1:
      no duplicates and no gaps. */
  lemma IssuedFromZero(k: nat)
    requires k <= TwoTo32
    ensures forall i :: 0 <= i < k ==> Issued(0, k)[i] == i
  {
    forall i | 0 <= i < k
      ensures Issued(0, k)[i] == i
    {
      IssuedAt(0, k, i);
    }
  }

  /** The counter. `issued` is the number of Next calls made so far; the
      stored value is that number modulo 2^32. */
  class Sequence {
    var value: u32
    var padding: seq<u32>
    ghost var issued: nat

    ghost predicate Valid()
      reads this
    {
      value == issued % TwoTo32 && |padding| == 7
    }

    constructor ()
      ensures Valid()
      ensures value == 0 && issued == 0
      ensures padding == [0, 1, 2, 3, 4, 5, 6]
    {
      value := 0;
      padding := [0, 1, 2, 3, 4, 5, 6];
      issued := 0;
    }

    /** Fetch-and-add: returns the value before the increment. */
    method Next() returns (n: u32)
      requires Valid()
      modifies this`value, this`issued
      ensures Valid()
      ensures n == old(value) && value == Succ(old(value))
      ensures n == old(issued) % TwoTo32 && issued == old(issued) + 1
      ensures padding == old(padding)
    {
      n := value;
      value := Succ(value);
      issued := issued + 1;
    }

    /** k consecutive calls of Next: they hand out Issued(s, k) for the
        counter value s before the first call. */
    method NextRun(k: nat) returns (ns: seq<u32>)
      requires Valid()
      modifies this`value, this`issued
      ensures Valid() && issued == old(issued) + k
      ensures ns == Issued(old(value), k)
      ensures padding == old(padding)
    {
      ghost var s := value;
      ns := [];
      for i := 0 to k
        invariant Valid() && issued == old(issued) + i
        invariant |ns| == i && value == (s + i) % TwoTo32
        invariant forall j :: 0 <= j < i ==> ns[j] == (s + j) % TwoTo32
      {
        var n := Next();
        ns := ns + [n];
      }
      forall j | 0 <= j < k
        ensures ns[j] == Issued(s, k)[j]
      {
        IssuedAt(s, k, j);
      }
    }

    /** The last value handed out by Next: the counter minus one. */
    method Value() returns (n: u32)
      requires Valid()
      ensures Succ(n) == value
      ensures issued > 0 ==> n == (issued - 1) % TwoTo32
      ensures issued == 0 ==> n == TwoTo32 - 1
    {
      n := Pred(value);
    }
  }
}
