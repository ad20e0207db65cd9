/** The immutable round-robin ring of immutable.go: values replicated
    cyclically into a power-of-two array that a private Sequence addresses
    through a bit mask. */
module Immutable {
  import opened Entries
  import opened Sequencer

  // ---------------------------------------------------------------------
  // Powers of two, bitwise AND, and why `idx & mask` is `idx % capacity`
  // ---------------------------------------------------------------------

  function Pow2(k: nat): (r: nat)
    ensures r >= 1
  {
    if k == 0 then 1 else 2 * Pow2(k - 1)
  }

  lemma {:induction false} Pow2Add(a: nat, b: nat)
    ensures Pow2(a + b) == Pow2(a) * Pow2(b)
    decreases a
  {
    if a > 0 {
      Pow2Add(a - 1, b);
    }
  }

  /** A larger exponent gives at least twice the power. */
  lemma {:induction false} Pow2Grows(a: nat, b: nat)
    requires a < b
    ensures 2 * Pow2(a) <= Pow2(b)
    decreases b
  {
    if a + 1 < b {
      Pow2Grows(a, b - 1);
    }
  }

  lemma Pow2Constants()
    ensures Pow2(28) == 0x1000_0000
    ensures Pow2(31) == 0x8000_0000
    ensures Pow2(32) == TwoTo32
  {
    assert Pow2(8) == 0x100;
    assert Pow2(16) == 0x1_0000 by {
      Pow2Add(8, 8);
    }
    assert Pow2(28) == 0x1000_0000 by {
      assert Pow2(12) == 0x1000;
      Pow2Add(16, 12);
    }
    assert Pow2(31) == 0x8000_0000;
  }

  /** Bitwise AND of two naturals, one binary digit at a time. */
  function BitAnd(x: nat, y: nat): nat
    decreases x
  {
    if x == 0 || y == 0 then 0
    else 2 * BitAnd(x / 2, y / 2) + (if x % 2 == 1 && y % 2 == 1 then 1 else 0)
  }

  lemma {:induction false} MulAtLeast(d: int, a: int)
    requires d > 0 && a >= 1
    ensures d * a >= d
    decreases a
  {
    if a > 1 {
      MulAtLeast(d, a - 1);
      assert d * a == d * (a - 1) + d;
    }
  }

  /** Euclidean division is determined by its quotient and remainder. */
  lemma DivModUnique(x: int, d: int, q: int, r: int)
    requires d > 0 && x == d * q + r && 0 <= r < d
    ensures x / d == q && x % d == r
  {
    var q' := x / d;
    assert d * q' + x % d == d * q + r;
    if q' < q {
      MulAtLeast(d, q - q');
    } else if q' > q {
      MulAtLeast(d, q' - q);
    }
  }

  lemma DivModStep(x: nat, p: nat)
    requires p >= 1
    ensures 2 * ((x / 2) % p) + x % 2 == x % (2 * p)
  {
    var q := x / 2;
    assert x == (2 * p) * (q / p) + (2 * (q % p) + x % 2);
    DivModUnique(x, 2 * p, q / p, 2 * (q % p) + x % 2);
  }

  /** ANDing with the odd number 2p - 1 keeps the lowest bit and ANDs the
      rest with p - 1. */
  lemma BitAndOdd(x: nat, p: nat)
    requires x > 0 && p >= 1
    ensures BitAnd(x, 2 * p - 1) == 2 * BitAnd(x / 2, p - 1) + x % 2
  {
    DivModUnique(2 * p - 1, 2, p - 1, 1);
  }

  /** One bit more: if masking x / 2 with p - 1 is reducing it modulo p,
      then masking x with 2p - 1 is reducing it modulo 2p. */
  lemma MaskStep(x: nat, p: nat)
    requires x > 0 && p >= 1
    requires BitAnd(x / 2, p - 1) == (x / 2) % p
    ensures BitAnd(x, 2 * p - 1) == x % (2 * p)
  {
    BitAndOdd(x, p);
    DivModStep(x, p);
  }

  /** Masking with 2^k - 1 keeps the k low bits: the remainder modulo 2^k. */
  lemma {:induction false} MaskIsMod(x: nat, k: nat)
    ensures BitAnd(x, Pow2(k) - 1) == x % Pow2(k)
    decreases k
  {
    if k == 0 {
      DivModUnique(x, 1, x, 0);
    } else if x == 0 {
      DivModUnique(0, Pow2(k), 0, 0);
    } else {
      MaskIsMod(x / 2, k - 1);
      MaskStep(x, Pow2(k - 1));
    }
  }

  /** Reducing modulo a multiple of a first does not change the remainder
      modulo a. */
  lemma ModOfMultiple(x: int, a: int, b: int)
    requires a >= 1 && b >= 1
    ensures (x % (a * b)) % a == x % a
  {
    var r := x % (a * b);
    var q := x / (a * b);
    assert x == a * (b * q + r / a) + r % a;
    DivModUnique(x, a, b * q + r / a, r % a);
  }

  /** Since the capacity divides 2^32, the wrap-around of the 32-bit
      counter never breaks the cyclic order of the slots. */
  lemma WrapThenMod(x: int, k: nat)
    requires k <= 32
    ensures (x % TwoTo32) % Pow2(k) == x % Pow2(k)
  {
    Pow2Constants();
    Pow2Add(k, 32 - k);
    ModOfMultiple(x, Pow2(k), Pow2(32 - k));
  }

  /** The counter's value before any Next, 2^32 - 1, addresses the last slot. */
  lemma LastSlot(k: nat)
    requires k <= 32
    ensures (TwoTo32 - 1) % Pow2(k) == Pow2(k) - 1
  {
    WrapThenMod(-1, k);
    DivModUnique(-1, Pow2(k), -1, Pow2(k) - 1);
  }

  /** For at most 2^31 values the doubling stops at a shift of at most 31. */
  lemma ShiftInRange(n: nat, doubleTimes: nat)
    requires 0 < n <= 0x8000_0000 && doubleTimes >= 1
    requires doubleTimes == 1 || Pow2(doubleTimes - 1) < n
    ensures doubleTimes <= 31 && Pow2(doubleTimes) <= 0x8000_0000
  {
    Pow2Constants();
    if doubleTimes > 32 {
      Pow2Grows(31, doubleTimes - 1);
    } else if doubleTimes < 31 {
      Pow2Grows(doubleTimes, 31);
    }
  }

  /** unsafe.Alignof of a slice header on a 64-bit platform: NewImmutable
      allocates capacity * align element slots and uses every align-th one. */
  const Align: nat := 8

  /** The slot count capacity * align is computed in uint32. For a capacity
      of 2^29 or more it wraps to 0, and NewImmutable then panics taking the
      address of the first slot; that happens exactly for more than 2^28
      values. */
  lemma ElementsLengthWraps(n: nat, capacity: nat, doubleTimes: nat)
    requires 0 < n <= 0x8000_0000 && doubleTimes >= 1
    requires capacity == Pow2(doubleTimes) && n <= capacity
    requires doubleTimes == 1 || Pow2(doubleTimes - 1) < n
    ensures (capacity * Align) % TwoTo32 == 0 <==> n > 0x1000_0000
  {
    ShiftInRange(n, doubleTimes);
    Pow2Constants();
    Pow2Add(doubleTimes, 3);
    assert capacity * Align == Pow2(doubleTimes + 3);
    if doubleTimes >= 29 {
      Pow2Add(32, doubleTimes - 29);
      DivModUnique(capacity * Align, TwoTo32, Pow2(doubleTimes - 29), 0);
      if doubleTimes > 29 {
        Pow2Grows(28, doubleTimes - 1);
      }
    } else {
      if doubleTimes < 28 {
        Pow2Grows(doubleTimes, 28);
      }
      DivModUnique(capacity * Align, TwoTo32, 0, capacity * Align);
    }
  }

  // ---------------------------------------------------------------------
  // Construction helpers
  // ---------------------------------------------------------------------

  /** The doubling loop of NewImmutable: the least 2^k with k >= 1 that is
      at least n, together with k. */
  method CapacityFor(n: nat) returns (capacity: nat, doubleTimes: nat)
    ensures doubleTimes >= 1 && capacity == Pow2(doubleTimes)
    ensures n <= capacity
    ensures doubleTimes == 1 || Pow2(doubleTimes - 1) < n
  {
    doubleTimes := 1;
    capacity := Pow2(doubleTimes);
    while capacity < n
      invariant doubleTimes >= 1 && capacity == Pow2(doubleTimes)
      invariant doubleTimes == 1 || Pow2(doubleTimes - 1) < n
      decreases n - capacity
    {
      doubleTimes := doubleTimes + 1;
      capacity := Pow2(doubleTimes);
    }
  }

  /** The capacity chosen for n values is at least 2 and no power of two
      2^j with j >= 1 that holds n values is smaller. It is exactly 2 for up
      to two values and less than 2 * n above that. */
  lemma CapacityIsLeast(n: nat, capacity: nat, doubleTimes: nat, j: nat)
    requires doubleTimes >= 1 && capacity == Pow2(doubleTimes) && n <= capacity
    requires doubleTimes == 1 || Pow2(doubleTimes - 1) < n
    requires j >= 1 && n <= Pow2(j)
    ensures 2 <= capacity <= Pow2(j)
    ensures n <= 2 ==> capacity == 2
    ensures n > 2 ==> capacity < 2 * n
  {
    if doubleTimes > 1 {
      Pow2Grows(0, doubleTimes);
      if j < doubleTimes {
        if j < doubleTimes - 1 {
          Pow2Grows(j, doubleTimes - 1);
        }
      } else if j > doubleTimes {
        Pow2Grows(doubleTimes, j);
      }
    } else if j > 1 {
      Pow2Grows(1, j);
    }
  }

  /** The identity keys of values, in order. */
  function Keys(values: seq<Entry>): (ks: seq<string>)
    ensures |ks| == |values|
    ensures forall i :: 0 <= i < |values| ==> ks[i] == values[i].key
  {
    seq(|values|, i requires 0 <= i < |values| => values[i].key)
  }

  ghost predicate DistinctKeys(values: seq<Entry>) {
    forall i, j :: 0 <= i < j < |values| ==> values[i].key != values[j].key
  }

  /** A key found at two positions is counted at least twice. */
  lemma RepeatedKeyCountedTwice(ks: seq<string>, i: nat, j: nat)
    requires i < j < |ks| && ks[i] == ks[j]
    ensures multiset(ks)[ks[i]] >= 2
  {
    assert ks == ks[..j] + [ks[j]] + ks[j + 1..];
    assert ks[i] in ks[..j];
  }

  /** Keys that are pairwise different are each counted at most once. */
  lemma {:induction false} DistinctCountedOnce(ks: seq<string>)
    requires forall i, j :: 0 <= i < j < |ks| ==> ks[i] != ks[j]
    ensures forall k :: multiset(ks)[k] <= 1
    decreases |ks|
  {
    if |ks| > 0 {
      var p, x := ks[..|ks| - 1], ks[|ks| - 1];
      DistinctCountedOnce(p);
      assert ks == p + [x];
    }
  }

  /** No two values share a key exactly when no key is counted twice. */
  lemma DistinctIffCountsAtMostOne(values: seq<Entry>)
    ensures DistinctKeys(values) <==> forall k :: multiset(Keys(values))[k] <= 1
  {
    var ks := Keys(values);
    if DistinctKeys(values) {
      DistinctCountedOnce(ks);
    } else {
      var i, j :| 0 <= i < j < |values| && values[i].key == values[j].key;
      RepeatedKeyCountedTwice(ks, i, j);
    }
  }

  /** The first loop of NewImmutable: how often each key occurs. */
  method CountKeys(values: seq<Entry>) returns (keys: map<string, nat>)
    ensures forall k :: k in keys <==> multiset(Keys(values))[k] > 0
    ensures forall k :: k in keys ==> keys[k] == multiset(Keys(values))[k]
  {
    keys := map[];
    for i := 0 to |values|
      invariant forall k :: k in keys <==> multiset(Keys(values[..i]))[k] > 0
      invariant forall k :: k in keys ==> keys[k] == multiset(Keys(values[..i]))[k]
    {
      var n := if values[i].key in keys then keys[values[i].key] else 0;
      n := n + 1;
      keys := keys[values[i].key := n];
      assert Keys(values[..i + 1]) == Keys(values[..i]) + [values[i].key];
    }
    assert values[..|values|] == values;
  }

  /** The validation of NewImmutable: the values are accepted exactly when
      there is at least one and no key occurs twice. */
  method CheckValues(values: seq<Entry>) returns (ok: bool)
    ensures ok <==> |values| > 0 && DistinctKeys(values)
  {
    if |values| == 0 {
      return false;
    }
    var keys := CountKeys(values);
    var duplicated := set k | k in keys && keys[k] > 1;
    DistinctIffCountsAtMostOne(values);
    if duplicated != {} {
      var k :| k in duplicated;
      assert multiset(Keys(values))[k] > 1;
      return false;
    }
    forall k
      ensures multiset(Keys(values))[k] <= 1
    {
      if k in keys {
        assert k !in duplicated;
      }
    }
    return true;
  }

  lemma MulSplit(d: nat, a: nat, b: nat)
    ensures d * (a + b) == d * a + d * b
    ensures d * b >= 0
  {
  }

  /** Slot j + t * n of a ring over n values holds the value at j, for each
      t < capacity / n: every value fills at least capacity / n slots. */
  lemma FillRepeats(n: nat, capacity: nat, j: nat, t: nat)
    requires 0 < n <= capacity && j < n && t < capacity / n
    ensures t * n + j < capacity
    ensures (t * n + j) % n == j
  {
    var q := capacity / n;
    DivModUnique(capacity, n, q, capacity % n);
    MulSplit(n, t + 1, q - t - 1);
    MulSplit(n, t, 1);
    DivModUnique(t * n + j, n, t, j);
  }

  /** The filledValues loop of NewImmutable: slot i gets values[i mod n]. */
  method FillCyclic(values: seq<Entry>, capacity: nat) returns (filled: array<Entry>)
    requires |values| > 0
    ensures fresh(filled) && filled.Length == capacity
    ensures forall i :: 0 <= i < capacity ==> filled[i] == values[i % |values|]
  {
    filled := new Entry[capacity];
    for i := 0 to capacity
      invariant forall k :: 0 <= k < i ==> filled[k] == values[k % |values|]
    {
      filled[i] := values[i % |values|];
    }
  }

  /** The loop that stores filledValues[i] through elementAt(i), that is at
      slot i & (2^shift - 1), which is slot i itself. */
  method PlaceMasked(filled: array<Entry>, shift: nat) returns (elements: array<Entry>)
    requires filled.Length == Pow2(shift)
    ensures fresh(elements) && elements.Length == filled.Length
    ensures elements[..] == filled[..]
  {
    var capacity := filled.Length;
    var mask := capacity - 1;
    elements := new Entry[capacity];
    for i := 0 to capacity
      invariant forall k :: 0 <= k < i ==> elements[k] == filled[k]
    {
      MaskIsMod(i, shift);
      DivModUnique(i, capacity, 0, i);
      elements[BitAnd(i, mask)] := filled[i];
    }
  }

  // ---------------------------------------------------------------------
  // The ring
  // ---------------------------------------------------------------------

  class ImmutableRing {
    const key: string
    const sequence: Sequence
    const size: u32
    const shift: nat
    const mask: u32
    const elements: array<Entry>
    /** The values the ring was built from. */
    ghost const values: seq<Entry>

    ghost predicate Valid()
      reads this, sequence, elements
    {
      && sequence.Valid()
      && 1 <= shift <= 31 && size == Pow2(shift) && mask == size - 1
      && elements.Length == size
      && 0 < |values| <= size && DistinctKeys(values)
      && forall i :: 0 <= i < size ==> elements[i] == values[i % |values|]
    }

    /** Sizes the ring for values, replicates them cyclically and writes each
        one to its masked slot. Only New calls it, after validation and once
        the uint32 slot count capacity * align is known not to wrap to 0. */
    constructor (key: string, values: seq<Entry>)
      requires 0 < |values| <= 0x1000_0000 && DistinctKeys(values)
      ensures Valid() && fresh(sequence) && fresh(elements)
      ensures this.key == key && this.values == values && sequence.issued == 0
      ensures shift == 1 || Pow2(shift - 1) < |values|
    {
      var capacity, doubleTimes := CapacityFor(|values|);
      ShiftInRange(|values|, doubleTimes);
      var filled := FillCyclic(values, capacity);
      var elems := PlaceMasked(filled, doubleTimes);
      this.key := key;
      sequence := new Sequence();
      size := capacity;
      shift := doubleTimes;
      mask := capacity - 1;
      elements := elems;
      this.values := values;
    }

    /** NewImmutable: fails, before any ring exists, on an empty value list,
        when two values share a key, or when the uint32 slot count
        capacity * align wraps to 0, which is for more than 2^28 values. */
    static method New(key: string, values: seq<Entry>) returns (r: ImmutableRing?)
      requires |values| <= 0x8000_0000
      ensures r == null <==> |values| == 0 || !DistinctKeys(values) || |values| > 0x1000_0000
      ensures r != null ==> fresh(r) && fresh(r.sequence) && fresh(r.elements) && r.Valid()
      ensures r != null ==> r.key == key && r.values == values && r.sequence.issued == 0
      ensures r != null ==> forall j :: j >= 1 && |values| <= Pow2(j) ==> 2 <= r.size <= Pow2(j)
    {
      var accepted := CheckValues(values);
      if !accepted {
        return null;
      }
      var capacity, doubleTimes := CapacityFor(|values|);
      ElementsLengthWraps(|values|, capacity, doubleTimes);
      if (capacity * Align) % TwoTo32 == 0 {
        return null;
      }
      r := new ImmutableRing(key, values);
      forall j | j >= 1 && |values| <= Pow2(j) ensures 2 <= r.size <= Pow2(j) {
        CapacityIsLeast(|values|, r.size, r.shift, j);
      }
    }

    /** elementAt: the slot that index idx lands on under the mask. */
    function ElementAt(idx: u32): (e: Entry)
      reads this, sequence, elements
      requires Valid()
      ensures e == elements[idx % size]
      ensures e == values[idx % size % |values|]
    {
      MaskIsMod(idx, shift);
      elements[BitAnd(idx, mask)]
    }

    /** Advances the sequence and returns the slot it pointed at: call number
        k of the ring's lifetime returns slot k mod capacity. */
    method Next() returns (value: Entry)
      requires Valid()
      modifies sequence`value, sequence`issued
      ensures Valid()
      ensures sequence.padding == old(sequence.padding)
      ensures sequence.issued == old(sequence.issued) + 1
      ensures value == elements[old(sequence.issued) % size]
      ensures value == values[old(sequence.issued) % size % |values|]
    {
      var s := sequence.Next();
      var idx := s % size;
      value := ElementAt(idx);
      WrapThenMod(old(sequence.issued), shift);
      assert idx == old(sequence.issued) % size;
      DivModUnique(idx, size, 0, idx);
      assert value == elements[idx];
    }

    /** The slot of the last value Next handed out; on a fresh ring, the
        last slot. Always reports has = true. */
    method Head() returns (value: Entry, has: bool)
      requires Valid()
      ensures has
      ensures sequence.issued > 0 ==> value == elements[(sequence.issued - 1) % size]
      ensures sequence.issued == 0 ==> value == elements[size - 1]
    {
      var v := sequence.Value();
      value := ElementAt(v);
      has := true;
      if sequence.issued > 0 {
        WrapThenMod(sequence.issued - 1, shift);
      } else {
        LastSlot(shift);
      }
    }

    /** Scans the slots for the first value whose key is key. */
    method Get(key: string) returns (value: Option<Entry>)
      requires Valid()
      ensures value.Some? <==> exists j :: 0 <= j < |values| && values[j].key == key
      ensures forall j :: 0 <= j < |values| && values[j].key == key ==> value == Some(values[j])
      ensures value.Some? ==> exists i :: 0 <= i < size && elements[i] == value.value
    {
      value := None;
      for i := 0 to size
        invariant forall k :: 0 <= k < i ==> elements[k].key != key
      {
        var e := ElementAt(i);
        DivModUnique(i, size, 0, i);
        if e.key == key {
          assert e == values[i % |values|];
          return Some(e);
        }
      }
      forall j | 0 <= j < |values|
        ensures values[j].key != key
      {
        DivModUnique(j, |values|, 0, j);
        assert elements[j] == values[j];
      }
    }
  }
}
