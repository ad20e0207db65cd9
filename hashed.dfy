/** The consistent-hash range table of hashed.go: entries own half-open
    ranges of the keyspace [0, 256), are kept ordered by (High, Low), and
    change through a staged add that the caller later activates or cancels. */
module Hashed {
  import opened Entries

  /** Size of the keyspace (slots 0 .. 255), and the most entries that Add
      and AddDeclared let a ring hold. */
  const MaxEntries: nat := 256

  // ---------------------------------------------------------------------
  // uint64 arithmetic and range predicates
  // ---------------------------------------------------------------------

  /** Go's uint64 subtraction, which wraps below zero. */
  function Sub64(a: u64, b: u64): (r: u64)
    ensures (b + r) % TwoTo64 == a
    ensures b <= a ==> r == a - b
  {
    if b <= a then a - b else a - b + TwoTo64
  }

  /** The split point Add computes, `(High - Low) / 2 + Low` in uint64. For a
      well-formed range it lies inside the range and the upper part is the
      larger half by at most one slot. */
  function Mid(low: u64, high: u64): (m: u64)
    ensures low <= high ==> low <= m <= high
    ensures low <= high ==> (high - m) - (m - low) in {0, 1}
  {
    (Sub64(high, low) / 2 + low) % TwoTo64
  }

  /** The two halves of a split add up to the range that was split. */
  lemma SplitSizes(low: u64, high: u64)
    requires low <= high
    ensures Sub64(Mid(low, high), low) + Sub64(high, Mid(low, high)) == Sub64(high, low)
    ensures Sub64(high, Mid(low, high)) - Sub64(Mid(low, high), low) in {0, 1}
  {
  }

  predicate InRange(x: int, low: int, high: int) {
    low <= x < high
  }

  /** The overlap test on half-open ranges: max(sLow, tLow) < min(sHigh, tHigh). */
  predicate Overlap(sLow: u64, sHigh: u64, tLow: u64, tHigh: u64) {
    (if sLow < tLow then tLow else sLow) < (if sHigh < tHigh then sHigh else tHigh)
  }

  /** Two ranges overlap exactly when some integer lies in both; an empty
      range overlaps nothing. */
  lemma OverlapIffSharedSlot(sLow: u64, sHigh: u64, tLow: u64, tHigh: u64)
    ensures Overlap(sLow, sHigh, tLow, tHigh) <==>
            exists x :: InRange(x, sLow, sHigh) && InRange(x, tLow, tHigh)
    ensures sHigh <= sLow || tHigh <= tLow ==> !Overlap(sLow, sHigh, tLow, tHigh)
  {
    if Overlap(sLow, sHigh, tLow, tHigh) {
      var x := if sLow < tLow then tLow else sLow;
      assert InRange(x, sLow, sHigh) && InRange(x, tLow, tHigh);
    }
  }

  /** Ranges inside two non-overlapping ranges do not overlap either. */
  lemma NoOverlapOfSubranges(aLow: u64, aHigh: u64, bLow: u64, bHigh: u64,
                             aLow': u64, aHigh': u64, bLow': u64, bHigh': u64)
    requires aLow <= aLow' && aHigh' <= aHigh && bLow <= bLow' && bHigh' <= bHigh
    requires !Overlap(aLow, aHigh, bLow, bHigh)
    ensures !Overlap(aLow', aHigh', bLow', bHigh')
  {
  }

  /** intersect: the nested loop that looks for a slot both ranges contain. */
  method Intersect(sLow: u64, sHigh: u64, tLow: u64, tHigh: u64) returns (ok: bool)
    ensures ok <==> Overlap(sLow, sHigh, tLow, tHigh)
  {
    var s := sLow;
    while s < sHigh
      invariant sLow <= s
      invariant forall x :: sLow <= x < s ==> !InRange(x, tLow, tHigh)
      decreases sHigh - s
    {
      var t := tLow;
      while t < tHigh
        invariant tLow <= t
        invariant !InRange(s, tLow, t)
        decreases tHigh - t
      {
        if s == t {
          return true;
        }
        t := t + 1;
      }
      s := s + 1;
    }
    OverlapIffSharedSlot(sLow, sHigh, tLow, tHigh);
    ok := false;
  }

  // ---------------------------------------------------------------------
  // Entries
  // ---------------------------------------------------------------------

  /** One record of the table. The Entry never changes; Add, activate and
      cancel update the flag and the bounds in place. */
  class HashRingEntry {
    const entry: Entry
    var active: bool
    var low: u64
    var high: u64

    constructor (entry: Entry, active: bool, low: u64, high: u64)
      ensures this.entry == entry && this.active == active
      ensures this.low == low && this.high == high
    {
      this.entry := entry;
      this.active := active;
      this.low := low;
      this.high := high;
    }

    predicate Contains(n: int)
      reads this
    {
      InRange(n, low, high)
    }

    /** The table's order: by High, then by Low. */
    predicate Less(o: HashRingEntry)
      reads this, o
    {
      high < o.high || (high == o.high && low < o.low)
    }

    /** High - Low in uint64: the number of slots when Low <= High. */
    function RangeSize(): (size: u64)
      reads this
      ensures (low + size) % TwoTo64 == high
      ensures low <= high ==> size == high - low
    {
      Sub64(high, low)
    }
  }

  /** Less is a strict order, total on (High, Low) pairs. */
  lemma LessIsStrictOrder(a: HashRingEntry, b: HashRingEntry, c: HashRingEntry)
    ensures !a.Less(a)
    ensures a.Less(b) ==> !b.Less(a)
    ensures a.Less(b) && b.Less(c) ==> a.Less(c)
    ensures a.Less(b) || b.Less(a) || (a.high == b.high && a.low == b.low)
  {
  }

  ghost predicate SortedByRange(es: seq<HashRingEntry>)
    reads es
  {
    forall i, j :: 0 <= i < j < |es| ==> !es[j].Less(es[i])
  }

  ghost predicate Covered(es: seq<HashRingEntry>, n: int)
    reads es
  {
    exists e :: e in es && e.Contains(n)
  }

  /** Every slot of the keyspace lies in some entry's range. */
  ghost predicate Covering(es: seq<HashRingEntry>)
    reads es
  {
    forall n :: 0 <= n < MaxEntries ==> Covered(es, n)
  }

  /** No two different entries share a slot. */
  ghost predicate Disjoint(es: seq<HashRingEntry>)
    reads es
  {
    forall a, b :: a in es && b in es && a != b ==> !Overlap(a.low, a.high, b.low, b.high)
  }

  ghost predicate WellFormed(es: seq<HashRingEntry>)
    reads es
  {
    forall e :: e in es ==> e.low <= e.high
  }

  /** The position of the first entry whose range holds slot n. */
  ghost function FirstCovering(es: seq<HashRingEntry>, n: int): (i: nat)
    reads es
    requires Covered(es, n)
    ensures i < |es| && es[i].Contains(n)
    ensures forall k :: 0 <= k < i ==> !es[k].Contains(n)
    decreases |es|
  {
    if es[0].Contains(n) then 0
    else
      assert Covered(es[1..], n) by {
        var e :| e in es && e.Contains(n);
        assert es == [es[0]] + es[1..];
      }
      1 + FirstCovering(es[1..], n)
  }

  /** The position of the last active entry at or before position i, or -1
      when there is none. */
  ghost function LastActiveUpTo(es: seq<HashRingEntry>, i: int): (j: int)
    reads es
    requires -1 <= i < |es|
    ensures -1 <= j <= i
    ensures j >= 0 ==> es[j].active
    ensures forall k :: j < k <= i ==> !es[k].active
    decreases i + 1
  {
    if i < 0 then -1 else if es[i].active then i else LastActiveUpTo(es, i - 1)
  }

  /** When ranges are disjoint, the entry holding a slot is the first one
      found for it. */
  lemma DisjointOwnerIsFirst(es: seq<HashRingEntry>, e: HashRingEntry, n: int)
    requires Disjoint(es) && e in es && e.Contains(n)
    ensures Covered(es, n) && es[FirstCovering(es, n)] == e
  {
  }

  /** The entries without those whose key is key (the filter loop of cancel). */
  function WithoutKey(es: seq<HashRingEntry>, key: string): (r: seq<HashRingEntry>)
    ensures forall e :: e in r ==> e in es && e.entry.key != key
    ensures forall e :: e in es ==> multiset(r)[e] == if e.entry.key == key then 0 else multiset(es)[e]
    decreases |es|
  {
    if es == [] then []
    else
      var p, x := es[..|es| - 1], es[|es| - 1];
      assert es == p + [x];
      if x.entry.key == key then WithoutKey(p, key) else WithoutKey(p, key) + [x]
  }

  // ---------------------------------------------------------------------
  // NewHashed's even split
  // ---------------------------------------------------------------------

  /** Low bound NewHashed gives entry i of n: span * i with span = 256 / n. */
  function SpanLow(n: nat, i: nat): int
    requires n > 0
  {
    (MaxEntries / n) * i
  }

  /** High bound NewHashed gives entry i of n: span * (i + 1), except 256 for
      the last entry. */
  function SpanHigh(n: nat, i: nat): int
    requires n > 0
  {
    if i == n - 1 then MaxEntries else (MaxEntries / n) * (i + 1)
  }

  lemma MulMonotone(a: nat, b: nat, c: nat)
    requires b <= c
    ensures a * b <= a * c
  {
  }

  lemma SpanLowBound(n: nat, i: nat)
    requires 0 < n && i <= n
    ensures 0 <= SpanLow(n, i) <= MaxEntries
  {
    DivBounds(MaxEntries, n);
    MulMonotone(MaxEntries / n, 0, i);
    MulMonotone(MaxEntries / n, i, n);
  }

  /** The even split tiles [0, 256): entry 0 starts at 0, each entry ends
      where the next begins, every bound is within [0, 256], and for at most
      256 entries every range is non-empty. */
  lemma EvenSplitTiles(n: nat, i: nat)
    requires 0 < i + 1 <= n
    ensures 0 <= SpanLow(n, i) <= SpanHigh(n, i) <= MaxEntries
    ensures n <= MaxEntries ==> SpanLow(n, i) < SpanHigh(n, i)
    ensures i == 0 ==> SpanLow(n, i) == 0
    ensures i + 1 < n ==> SpanHigh(n, i) == SpanLow(n, i + 1)
  {
    var span := MaxEntries / n;
    DivBounds(MaxEntries, n);
    MulMonotone(span, 0, i);
    MulSucc(span, i);
    MulMonotone(span, i + 1, n);
  }

  /** Ranges of earlier entries of the split end before later ones begin. */
  lemma EvenSplitOrdered(n: nat, i: nat, j: nat)
    requires i < j < n
    ensures SpanHigh(n, i) <= SpanLow(n, j)
  {
    MulMonotone(MaxEntries / n, i + 1, j);
  }

  lemma DivBounds(x: nat, d: nat)
    requires d > 0
    ensures 0 <= x / d
    ensures d * (x / d) <= x < d * (x / d) + d
  {
  }

  lemma MulSucc(a: int, b: int)
    ensures a * (b + 1) == a * b + a
  {
  }

  /** The entry of the split that holds slot x. */
  function EvenSplitOwner(n: nat, x: nat): (i: nat)
    requires 0 < n && x < MaxEntries
    ensures i < n && SpanLow(n, i) <= x < SpanHigh(n, i)
  {
    var span := MaxEntries / n;
    if span == 0 then
      assert SpanLow(n, n - 1) == 0;
      n - 1
    else
      var q := x / span;
      DivBounds(x, span);
      if q < n - 1 then
        MulSucc(span, q);
        q
      else
        MulMonotone(span, n - 1, q);
        n - 1
  }

  /** Entries holding the even split form a valid table: ordered, pairwise
      disjoint, well-formed and, when there is at least one, covering. */
  lemma EvenSplitIsTable(hs: seq<HashRingEntry>)
    requires forall i :: 0 <= i < |hs| ==>
      hs[i].low == SpanLow(|hs|, i) && hs[i].high == SpanHigh(|hs|, i)
    ensures SortedByRange(hs) && Disjoint(hs) && WellFormed(hs)
    ensures |hs| > 0 ==> Covering(hs)
  {
    var n := |hs|;
    forall i, j | 0 <= i < j < n
      ensures hs[i].high <= hs[j].low
    {
      EvenSplitOrdered(n, i, j);
    }
    forall i | 0 <= i < n
      ensures hs[i].low <= hs[i].high <= MaxEntries
    {
      EvenSplitTiles(n, i);
    }
    forall a, b | a in hs && b in hs && a != b
      ensures !Overlap(a.low, a.high, b.low, b.high)
    {
      var i :| 0 <= i < n && hs[i] == a;
      var j :| 0 <= j < n && hs[j] == b;
      assert i != j;
    }
    if n > 0 {
      forall x | 0 <= x < MaxEntries
        ensures Covered(hs, x)
      {
        var i := EvenSplitOwner(n, x);
        assert hs[i].Contains(x);
      }
    }
  }

  /** The first loop of NewHashed: one fresh active entry per Entry, each
      over the empty range [0, 0). */
  method NewEntries(es: seq<Entry>) returns (hashed: seq<HashRingEntry>)
    ensures |hashed| == |es|
    ensures forall i :: 0 <= i < |es| ==> fresh(hashed[i])
    ensures forall i, j :: 0 <= i < j < |es| ==> hashed[i] != hashed[j]
    ensures forall i :: 0 <= i < |es| ==> hashed[i].entry == es[i] && hashed[i].active
  {
    hashed := [];
    for i := 0 to |es|
      invariant |hashed| == i
      invariant forall k :: 0 <= k < i ==> fresh(hashed[k])
      invariant forall k :: 0 <= k < i ==> hashed[k].entry == es[k] && hashed[k].active
      invariant forall a, b :: 0 <= a < b < i ==> hashed[a] != hashed[b]
    {
      var h := new HashRingEntry(es[i], true, 0, 0);
      hashed := hashed + [h];
    }
  }

  /** The second loop of NewHashed: entry i gets [span * i, span * (i + 1))
      with span = 256 / n, and the last entry's High becomes 256. */
  method AssignSpans(hashed: seq<HashRingEntry>)
    requires |hashed| > 0
    requires forall a, b :: 0 <= a < b < |hashed| ==> hashed[a] != hashed[b]
    modifies set e | e in hashed
    ensures forall i :: 0 <= i < |hashed| ==>
      hashed[i].low == SpanLow(|hashed|, i) && hashed[i].high == SpanHigh(|hashed|, i)
    ensures forall i :: 0 <= i < |hashed| ==> hashed[i].active == old(hashed[i].active)
  {
    var n := |hashed|;
    var span := MaxEntries / n;
    for i := 0 to n
      invariant forall k :: 0 <= k < i ==> hashed[k].low == SpanLow(n, k) && hashed[k].high == SpanLow(n, k + 1)
      invariant forall k :: 0 <= k < n ==> hashed[k].active == old(hashed[k].active)
    {
      SpanLowBound(n, i);
      SpanLowBound(n, i + 1);
      hashed[i].low := span * i;
      hashed[i].high := span * (i + 1);
    }
    hashed[n - 1].high := MaxEntries;
    forall i | 0 <= i < n
      ensures hashed[i].low == SpanLow(n, i) && hashed[i].high == SpanHigh(n, i)
    {
      if i < n - 1 {
        assert hashed[i] != hashed[n - 1];
        assert hashed[i].high == SpanLow(n, i + 1);
        EvenSplitTiles(n, i);
      }
    }
  }

  /** NewHashed's entries: one fresh active entry per Entry, then the span
      bounds, with the last entry's High raised to 256. */
  method EvenSplit(es: seq<Entry>) returns (hashed: seq<HashRingEntry>)
    ensures |hashed| == |es|
    ensures forall i :: 0 <= i < |es| ==> fresh(hashed[i])
    ensures forall i, j :: 0 <= i < j < |es| ==> hashed[i] != hashed[j]
    ensures forall i :: 0 <= i < |es| ==>
      hashed[i].entry == es[i] && hashed[i].active &&
      hashed[i].low == SpanLow(|es|, i) && hashed[i].high == SpanHigh(|es|, i)
  {
    hashed := NewEntries(es);
    var n := |es|;
    if n == 0 {
      return;
    }
    AssignSpans(hashed);
  }

  /** Sequences with equal multisets have the same members. */
  lemma SameMembers(a: seq<HashRingEntry>, b: seq<HashRingEntry>)
    requires multiset(a) == multiset(b)
    ensures forall e :: e in a <==> e in b
  {
    forall e
      ensures e in a <==> e in b
    {
      assert e in a <==> e in multiset(a);
      assert e in b <==> e in multiset(b);
    }
  }

  /** Sequences with the same members describe the same table. */
  lemma SameMembersTable(a: seq<HashRingEntry>, b: seq<HashRingEntry>)
    requires forall e :: e in a <==> e in b
    ensures Covering(a) ==> Covering(b)
    ensures WellFormed(a) ==> WellFormed(b)
    ensures Disjoint(a) ==> Disjoint(b)
  {
    if Covering(a) {
      forall n | 0 <= n < MaxEntries
        ensures Covered(b, n)
      {
        assert Covered(a, n);
      }
    }
  }

  /** The members of a sequence with one more element. */
  lemma MembersOfSum(a: seq<HashRingEntry>, b: seq<HashRingEntry>, x: HashRingEntry)
    requires multiset(b) == multiset(a) + multiset{x}
    ensures forall e :: e in b <==> e in a || e == x
  {
    forall e
      ensures e in b <==> e in a || e == x
    {
      assert e in a <==> e in multiset(a);
      assert e in b <==> e in multiset(b);
    }
  }

  /** Removing the key of the one entry that was added gives back the
      entries as they were. */
  lemma WithoutAddedKey(before: seq<HashRingEntry>, after: seq<HashRingEntry>, x: HashRingEntry)
    requires multiset(after) == multiset(before) + multiset{x}
    requires forall e :: e in before ==> e.entry.key != x.entry.key
    ensures multiset(WithoutKey(after, x.entry.key)) == multiset(before)
  {
    var r := WithoutKey(after, x.entry.key);
    MembersOfSum(before, after, x);
    forall e
      ensures multiset(r)[e] == multiset(before)[e]
    {
      if e !in after {
        assert e !in r && e !in before;
      }
    }
  }

  // ---------------------------------------------------------------------
  // Sorting
  // ---------------------------------------------------------------------

  /** Inserts x into an ordered sequence after every entry not above it. */
  method InsertSorted(s: seq<HashRingEntry>, x: HashRingEntry) returns (r: seq<HashRingEntry>)
    requires SortedByRange(s)
    ensures SortedByRange(r)
    ensures multiset(r) == multiset(s) + multiset{x}
  {
    var j := |s|;
    while j > 0 && x.Less(s[j - 1])
      invariant 0 <= j <= |s|
      invariant forall k :: j <= k < |s| ==> x.Less(s[k])
    {
      j := j - 1;
    }
    r := s[..j] + [x] + s[j..];
    assert s == s[..j] + s[j..];
    InsertKeepsSorted(s, x, j);
  }

  /** Placing x after every entry not above it and before every entry above
      it keeps a sequence ordered. */
  lemma InsertKeepsSorted(s: seq<HashRingEntry>, x: HashRingEntry, j: nat)
    requires SortedByRange(s) && j <= |s|
    requires j > 0 ==> !x.Less(s[j - 1])
    requires forall k :: j <= k < |s| ==> x.Less(s[k])
    ensures SortedByRange(s[..j] + [x] + s[j..])
  {
    var r := s[..j] + [x] + s[j..];
    forall a, b | 0 <= a < b < |r|
      ensures !r[b].Less(r[a])
    {
      if b < j {
        assert r[a] == s[a] && r[b] == s[b];
      } else if b == j {
        assert r[a] == s[a] && r[b] == x;
        if a < j - 1 {
          assert !s[j - 1].Less(s[a]);
        }
      } else if a == j {
        assert r[a] == x && r[b] == s[b - 1];
      } else if a < j {
        assert r[a] == s[a] && r[b] == s[b - 1];
      } else {
        assert r[a] == s[a - 1] && r[b] == s[b - 1];
      }
    }
  }

  datatype EntryState = EntryState(key: string, active: bool, low: u64, high: u64)

  // ---------------------------------------------------------------------
  // The ring
  // ---------------------------------------------------------------------

  class HashRing {
    var entries: seq<HashRingEntry>

    /** NewHashed: splits the keyspace evenly over the given entries, all
        active; the last one also takes the remainder up to 256. */
    constructor (es: seq<Entry>)
      ensures |entries| == |es|
      ensures forall i :: 0 <= i < |es| ==> fresh(entries[i])
      ensures forall i, j :: 0 <= i < j < |es| ==> entries[i] != entries[j]
      ensures forall i :: 0 <= i < |es| ==>
        entries[i].entry == es[i] && entries[i].active &&
        entries[i].low == SpanLow(|es|, i) && entries[i].high == SpanHigh(|es|, i)
      ensures SortedByRange(entries) && Disjoint(entries) && WellFormed(entries)
      ensures |es| > 0 ==> Covering(entries)
    {
      var hashed := EvenSplit(es);
      EvenSplitIsTable(hashed);
      entries := hashed;
    }

    function Size(): (n: nat)
      reads this
      ensures n == |entries|
    {
      |entries|
    }

    /** sort.Sort(entries): reorders by (High, Low) and keeps every entry. */
    method SortEntries()
      modifies this`entries
      ensures SortedByRange(entries)
      ensures multiset(entries) == multiset(old(entries))
    {
      var unsorted := entries;
      var sorted: seq<HashRingEntry> := [];
      for i := 0 to |unsorted|
        invariant SortedByRange(sorted)
        invariant multiset(sorted) == multiset(unsorted[..i])
      {
        sorted := InsertSorted(sorted, unsorted[i]);
        assert unsorted[..i + 1] == unsorted[..i] + [unsorted[i]];
      }
      assert unsorted[..|unsorted|] == unsorted;
      entries := sorted;
    }

    /** HashRingEntries.Get: the entry holding slot n if it is active;
        otherwise the nearest active entry before it in the list. */
    method GetSlot(n: u64) returns (entry: HashRingEntry, has: bool)
      requires Covered(entries, n)
      ensures var i := FirstCovering(entries, n);
              var j := LastActiveUpTo(entries, i);
              && has == (j >= 0)
              && (has ==> entry == entries[j])
              && (!has ==> entry == entries[0])
      ensures has ==> entry in entries && entry.active
    {
      ghost var first := FirstCovering(entries, n);
      var idx := -1;
      for i := 0 to |entries|
        invariant forall k :: 0 <= k < i ==> !entries[k].Contains(n)
        invariant i <= first
      {
        if entries[i].Contains(n) {
          idx := i;
          break;
        }
      }
      assert idx == first;
      entry := entries[idx];
      if entry.active {
        has := true;
        return;
      }
      while idx > 0
        invariant 0 <= idx <= first
        invariant entry == entries[idx]
        invariant forall k :: idx <= k <= first ==> !entries[k].active
      {
        idx := idx - 1;
        entry := entries[idx];
        if entry.active {
          has := true;
          return;
        }
      }
      has := false;
    }

    /** Get: resolves the 64-bit digest of a key (digest mod 256) to the
        entry serving it. */
    method Get(digest: u64) returns (entry: Option<Entry>)
      requires Covered(entries, digest % MaxEntries)
      ensures var j := LastActiveUpTo(entries, FirstCovering(entries, digest % MaxEntries));
              entry == if j >= 0 then Some(entries[j].entry) else None
      ensures Disjoint(entries) ==>
        forall e :: e in entries && e.active && e.Contains(digest % MaxEntries) ==> entry == Some(e.entry)
    {
      var hashed, hasHashed := GetSlot(digest % MaxEntries);
      if !hasHashed {
        return None;
      }
      entry := Some(hashed.entry);
      forall e | e in entries && e.active && e.Contains(digest % MaxEntries) && Disjoint(entries)
        ensures entry == Some(e.entry)
      {
        DisjointOwnerIsFirst(entries, e, digest % MaxEntries);
      }
    }

    /** The split candidate: none, or an active entry; when every entry is
        active, one with the largest range. The list ends up ordered again. */
    method BiggestRangeAndActiveOne() returns (target: HashRingEntry?)
      requires |entries| > 0
      modifies this`entries
      ensures SortedByRange(entries) && multiset(entries) == multiset(old(entries))
      ensures target != null ==> target in entries && target.active
      ensures (forall e :: e in entries ==> e.active) ==>
        target != null && forall e :: e in entries ==> e.RangeSize() <= target.RangeSize()
    {
      target := null;
      for i := 0 to |entries|
        invariant target != null ==> target in entries && target.active
        invariant target != null ==>
          forall k :: 0 <= k < i && entries[k].active ==> entries[k].RangeSize() <= target.RangeSize()
        invariant target == null ==> forall k :: 0 <= k < i ==> !entries[k].active
      {
        var e := entries[i];
        if e.active && (target == null || target.RangeSize() < e.RangeSize()) {
          target := e;
        }
      }
      ghost var before := entries;
      SortEntries();
      assert forall e :: e in entries <==> e in before by {
        forall e ensures e in entries <==> e in before {
          assert e in entries <==> e in multiset(entries);
          assert e in before <==> e in multiset(before);
        }
      }
    }

    /** The split at the heart of Add: the staged entry takes [mid, High) of
        source, source keeps [Low, mid), and the list is re-sorted. The
        table's invariants carry over. */
    method SplitAt(source: HashRingEntry, staged: HashRingEntry)
      requires source in entries && staged !in entries
      modifies this`entries, source, staged
      ensures staged.low == Mid(old(source.low), old(source.high)) && staged.high == old(source.high)
      ensures source.low == old(source.low) && source.high == staged.low
      ensures source.active == old(source.active) && staged.active == old(staged.active)
      ensures SortedByRange(entries)
      ensures multiset(entries) == multiset(old(entries)) + multiset{staged}
      ensures old(Covering(entries)) ==> Covering(entries)
      ensures old(WellFormed(entries)) ==> WellFormed(entries)
      ensures old(WellFormed(entries) && Disjoint(entries)) ==> Disjoint(entries)
    {
      ghost var before := entries;
      staged.low := Mid(source.low, source.high);
      staged.high := source.high;
      source.high := staged.low;
      entries := entries + [staged];
      SortEntries();
      // The split keeps the table's invariants: source keeps [Low, mid),
      // the staged entry takes [mid, High), nothing else moves.
      MembersOfSum(before, entries, staged);
      assert old(Covering(entries)) ==> Covering(entries) by {
        if old(Covering(entries)) {
          forall n | 0 <= n < MaxEntries
            ensures Covered(entries, n)
          {
            assert old(Covered(before, n));
            var e :| e in before && old(e.Contains(n));
            if e != source {
              assert e.Contains(n);
            } else if n < staged.low {
              assert source.Contains(n);
            } else {
              assert staged.Contains(n);
            }
          }
        }
      }
      assert old(WellFormed(entries)) ==> WellFormed(entries) by {
        if old(WellFormed(entries)) {
          forall e | e in entries
            ensures e.low <= e.high
          {
            if e != staged && e != source {
              assert old(e.low <= e.high);
            }
          }
        }
      }
      assert old(WellFormed(entries) && Disjoint(entries)) ==> Disjoint(entries) by {
        if old(WellFormed(entries) && Disjoint(entries)) {
          forall a, b | a in entries && b in entries && a != b
            ensures !Overlap(a.low, a.high, b.low, b.high)
          {
            if !((a == staged && b == source) || (a == source && b == staged)) {
              var a0 := if a == staged then source else a;
              var b0 := if b == staged then source else b;
              assert a0 in before && b0 in before && a0 != b0;
              assert old(a0.low <= a0.high);
              NoOverlapOfSubranges(old(a0.low), old(a0.high), old(b0.low), old(b0.high),
                                   a.low, a.high, b.low, b.high);
            }
          }
        }
      }
    }

    /** The non-empty branch of Add: picks the split candidate and, when
        there is one, gives the upper half of its range to staged. */
    method SplitBiggest(staged: HashRingEntry) returns (source: HashRingEntry?)
      requires |entries| > 0 && staged !in entries
      modifies this`entries, entries, staged
      ensures SortedByRange(entries)
      ensures source == null ==> multiset(entries) == multiset(old(entries))
      ensures source != null ==>
        && source in old(entries) && source.active && old(source.active)
        && staged.low == Mid(old(source.low), old(source.high)) && staged.high == old(source.high)
        && source.low == old(source.low) && source.high == staged.low
        && staged.active == old(staged.active)
        && SortedByRange(entries) && multiset(entries) == multiset(old(entries)) + multiset{staged}
      ensures forall e :: e in old(entries) && e != source ==>
        e.active == old(e.active) && e.low == old(e.low) && e.high == old(e.high)
      ensures (forall e :: e in old(entries) ==> old(e.active)) ==>
        source != null && forall e :: e in old(entries) ==> old(e.RangeSize()) <= Sub64(staged.high, source.low)
      ensures old(Covering(entries)) ==> Covering(entries)
      ensures old(WellFormed(entries)) ==> WellFormed(entries)
      ensures old(WellFormed(entries) && Disjoint(entries)) ==> Disjoint(entries)
    {
      ghost var before := entries;
      source := BiggestRangeAndActiveOne();
      SameMembers(before, entries);
      assert old(Covering(entries)) ==> Covering(entries) by {
        SameMembersTable(before, entries);
      }
      assert old(WellFormed(entries)) ==> WellFormed(entries) by {
        SameMembersTable(before, entries);
      }
      assert old(Disjoint(entries)) ==> Disjoint(entries) by {
        SameMembersTable(before, entries);
      }
      if source == null {
        return;
      }
      ghost var size := source.RangeSize();
      assert (forall e :: e in before ==> old(e.active)) ==>
        forall e :: e in before ==> old(e.RangeSize()) <= size;
      SplitAt(source, staged);
      assert Sub64(staged.high, source.low) == size;
    }

    /** The state change of Add, up to the point where the closures are
        built: stages an inactive entry over [0, 256) on an empty ring, or over
        the upper half of the split candidate's range; null when the ring is
        full or there is no candidate. */
    method Stage(entry: Entry) returns (staged: HashRingEntry?, source: HashRingEntry?)
      modifies this, entries
      ensures old(|entries|) >= MaxEntries ==> staged == null && entries == old(entries)
      ensures old(|entries|) == 0 ==> staged != null
      ensures old(|entries|) < MaxEntries ==> SortedByRange(entries)
      ensures staged == null ==> source == null && multiset(entries) == multiset(old(entries))
      ensures staged != null ==>
        && fresh(staged) && staged.entry == entry && !staged.active
        && SortedByRange(entries) && multiset(entries) == multiset(old(entries)) + multiset{staged}
      ensures staged != null && old(|entries|) == 0 ==>
        source == null && staged.low == 0 && staged.high == MaxEntries
      ensures staged != null && old(|entries|) > 0 ==>
        && source != null && source in old(entries) && source.active && old(source.active)
        && staged.low == Mid(old(source.low), old(source.high)) && staged.high == old(source.high)
        && source.low == old(source.low) && source.high == staged.low
      ensures forall e :: e in old(entries) && e != source ==>
        e.active == old(e.active) && e.low == old(e.low) && e.high == old(e.high)
      ensures 0 < old(|entries|) < MaxEntries && (forall e :: e in old(entries) ==> old(e.active)) ==>
        && staged != null && source != null
        && forall e :: e in old(entries) ==> old(e.RangeSize()) <= Sub64(staged.high, source.low)
      ensures old(Covering(entries)) ==> Covering(entries)
      ensures old(WellFormed(entries)) ==> WellFormed(entries)
      ensures old(WellFormed(entries) && Disjoint(entries)) ==> Disjoint(entries)
    {
      staged, source := null, null;
      if |entries| >= MaxEntries {
        return;
      }
      var hashed := new HashRingEntry(entry, false, 0, MaxEntries);
      if |entries| == 0 {
        entries := entries + [hashed];
        assert Covering(entries) by {
          forall n | 0 <= n < MaxEntries
            ensures Covered(entries, n)
          {
            assert hashed.Contains(n);
          }
        }
      } else {
        source := SplitBiggest(hashed);
        if source == null {
          return;
        }
      }
      staged := hashed;
    }

    /** Add: stages a new inactive entry (see Stage) and returns the range it
        covers together with the handle that activates or cancels it. */
    method Add(entry: Entry)
      returns (prevActive: Option<Entry>, cLow: u64, cHigh: u64, pending: PendingChange?, ok: bool,
               ghost src: HashRingEntry?)
      modifies this, entries
      ensures ok <==> pending != null
      ensures !ok ==> prevActive == None && cLow == 0 && cHigh == 0 && src == null
      ensures old(|entries|) >= MaxEntries ==> !ok && entries == old(entries)
      ensures old(|entries|) == 0 ==> ok
      ensures old(|entries|) < MaxEntries ==> SortedByRange(entries)
      ensures !ok ==> multiset(entries) == multiset(old(entries))
      ensures ok ==> fresh(pending) && fresh(pending.staged) && pending.ring == this && pending.source == src
      ensures ok ==> pending.staged.entry == entry && !pending.staged.active
      ensures ok ==> pending.staged.low == cLow && pending.staged.high == cHigh
      ensures ok ==> SortedByRange(entries)
      ensures ok ==> multiset(entries) == multiset(old(entries)) + multiset{pending.staged}
      ensures ok && old(|entries|) == 0 ==> src == null && prevActive == None && cLow == 0 && cHigh == MaxEntries
      ensures ok && old(|entries|) > 0 ==>
        && src != null && src in old(entries) && src.active && old(src.active)
        && prevActive == Some(src.entry)
        && cLow == Mid(old(src.low), old(src.high)) && cHigh == old(src.high)
        && src.low == old(src.low) && src.high == cLow
      ensures forall e :: e in old(entries) && e != src ==>
        e.active == old(e.active) && e.low == old(e.low) && e.high == old(e.high)
      ensures 0 < old(|entries|) < MaxEntries && (forall e :: e in old(entries) ==> old(e.active)) ==>
        ok && src != null &&
        forall e :: e in old(entries) ==> old(e.RangeSize()) <= Sub64(cHigh, src.low)
      ensures old(Covering(entries)) ==> Covering(entries)
      ensures old(WellFormed(entries)) ==> WellFormed(entries)
      ensures old(WellFormed(entries) && Disjoint(entries)) ==> Disjoint(entries)
    {
      prevActive, cLow, cHigh, pending, ok, src := None, 0, 0, null, false, null;
      var staged, source := Stage(entry);
      if staged == null {
        return;
      }
      if source != null {
        prevActive := Some(source.entry);
      }
      cLow, cHigh := staged.low, staged.high;
      pending := new PendingChange(this, staged, source);
      ok, src := true, source;
    }

    /** The scan of AddDeclared: no existing entry, active or staged, shares
        a slot with [low, high). */
    method Admits(low: u64, high: u64) returns (free: bool)
      ensures free <==> forall e :: e in entries ==> !Overlap(e.low, e.high, low, high)
    {
      for i := 0 to |entries|
        invariant forall k :: 0 <= k < i ==> !Overlap(entries[k].low, entries[k].high, low, high)
      {
        var e := entries[i];
        var clash := Intersect(e.low, e.high, low, high);
        if clash {
          return false;
        }
      }
      return true;
    }

    /** AddDeclared: adds an active entry over [low, high) unless the ring is
        full or the range shares a slot with an existing entry. */
    method AddDeclared(entry: Entry, low: u64, high: u64) returns (ok: bool, ghost added: HashRingEntry?)
      modifies this
      ensures ok <==> (old(|entries|) < MaxEntries &&
        forall e :: e in old(entries) ==> !Overlap(old(e.low), old(e.high), low, high))
      ensures !ok ==> entries == old(entries) && added == null
      ensures ok ==> added != null && fresh(added) && added.entry == entry && added.active
      ensures ok ==> added.low == low && added.high == high
      ensures ok ==> SortedByRange(entries)
      ensures ok ==> multiset(entries) == multiset(old(entries)) + multiset{added}
      ensures old(Disjoint(entries)) ==> Disjoint(entries)
      ensures old(Covering(entries)) ==> Covering(entries)
      ensures old(WellFormed(entries)) && low <= high ==> WellFormed(entries)
    {
      added := null;
      if |entries| >= MaxEntries {
        return false, null;
      }
      ghost var before := entries;
      if |entries| > 0 {
        var free := Admits(low, high);
        if !free {
          return false, null;
        }
      }
      var hashed := new HashRingEntry(entry, true, low, high);
      entries := entries + [hashed];
      if |entries| > 1 {
        SortEntries();
      }
      MembersOfSum(before, entries, hashed);
      assert old(Covering(entries)) ==> Covering(entries) by {
        if old(Covering(entries)) {
          forall n | 0 <= n < MaxEntries
            ensures Covered(entries, n)
          {
            assert old(Covered(before, n));
            var e :| e in before && old(e.Contains(n));
            assert e.Contains(n);
          }
        }
      }
      assert old(Disjoint(entries)) ==> Disjoint(entries) by {
        if old(Disjoint(entries)) {
          forall a, b | a in entries && b in entries && a != b
            ensures !Overlap(a.low, a.high, b.low, b.high)
          {
            if a != hashed && b != hashed {
              assert old(!Overlap(a.low, a.high, b.low, b.high));
            }
          }
        }
      }
      added := hashed;
      ok := true;
    }

    /** Add followed at once by the cancel it returns. When no entry has the
        key yet, the ring ends with the same entries, ranges and flags. */
    method AddThenCancel(entry: Entry) returns (ok: bool)
      requires forall e :: e in entries ==> e.entry.key != entry.key
      modifies this, entries
      ensures multiset(entries) == multiset(old(entries))
      ensures forall e :: e in old(entries) ==>
        e.active == old(e.active) && e.low == old(e.low) && e.high == old(e.high)
    {
      ghost var before := entries;
      var prevActive, cLow, cHigh, pending, added;
      ghost var src: HashRingEntry?;
      prevActive, cLow, cHigh, pending, added, src := Add(entry);
      if added {
        WithoutAddedKey(before, entries, pending.staged);
        pending.Cancel();
      }
      ok := added;
    }

    /** State: the flag and bounds of the first entry with the given key. */
    method State(key: string) returns (active: bool, low: u64, high: u64, has: bool)
      ensures has <==> exists e :: e in entries && e.entry.key == key
      ensures has ==> exists i ::
        && 0 <= i < |entries| && entries[i].entry.key == key
        && (forall k :: 0 <= k < i ==> entries[k].entry.key != key)
        && active == entries[i].active && low == entries[i].low && high == entries[i].high
      ensures !has ==> !active && low == 0 && high == 0
    {
      for i := 0 to |entries|
        invariant forall k :: 0 <= k < i ==> entries[k].entry.key != key
      {
        var e := entries[i];
        if e.entry.key == key {
          return e.active, e.low, e.high, true;
        }
      }
      return false, 0, 0, false;
    }

    /** States: calls visit on every entry in order until it returns false;
        the result lists the arguments of the calls made. */
    method States(visit: (string, bool, u64, u64) -> bool) returns (calls: seq<EntryState>)
      ensures |calls| <= |entries|
      ensures forall k :: 0 <= k < |calls| ==>
        calls[k] == EntryState(entries[k].entry.key, entries[k].active, entries[k].low, entries[k].high)
      ensures forall k :: 0 <= k < |calls| - 1 ==>
        visit(calls[k].key, calls[k].active, calls[k].low, calls[k].high)
      ensures |calls| < |entries| ==>
        && |calls| > 0
        && !visit(calls[|calls| - 1].key, calls[|calls| - 1].active, calls[|calls| - 1].low, calls[|calls| - 1].high)
    {
      calls := [];
      for i := 0 to |entries|
        invariant |calls| == i
        invariant forall k :: 0 <= k < i ==>
          calls[k] == EntryState(entries[k].entry.key, entries[k].active, entries[k].low, entries[k].high)
        invariant forall k :: 0 <= k < i ==>
          visit(calls[k].key, calls[k].active, calls[k].low, calls[k].high)
      {
        var e := entries[i];
        calls := calls + [EntryState(e.entry.key, e.active, e.low, e.high)];
        if !visit(e.entry.key, e.active, e.low, e.high) {
          return;
        }
      }
    }
  }

  /** The activate and cancel closures returned by Add, with the two
      entries they capture. */
  class PendingChange {
    const ring: HashRing
    const staged: HashRingEntry
    const source: HashRingEntry?

    constructor (ring: HashRing, staged: HashRingEntry, source: HashRingEntry?)
      ensures this.ring == ring && this.staged == staged && this.source == source
    {
      this.ring := ring;
      this.staged := staged;
      this.source := source;
    }

    /** The activate closure: the staged entry starts serving lookups. */
    method Activate()
      modifies staged
      ensures staged.active
      ensures staged.low == old(staged.low) && staged.high == old(staged.high)
    {
      staged.active := true;
    }

    /** The cancel closure: gives the source its old High back, drops every
        entry with the added key and re-sorts. The Go code sizes the new
        slice with length - 1, which panics on an empty ring. */
    method Cancel()
      requires |ring.entries| > 0
      modifies ring, source
      ensures source != null ==> source.high == old(staged.high)
      ensures source != null ==> source.low == old(source.low) && source.active == old(source.active)
      ensures SortedByRange(ring.entries)
      ensures multiset(ring.entries) == multiset(WithoutKey(old(ring.entries), staged.entry.key))
    {
      if source != null {
        source.high := staged.high;
      }
      var key := staged.entry.key;
      var all := ring.entries;
      var kept: seq<HashRingEntry> := [];
      for i := 0 to |all|
        invariant kept == WithoutKey(all[..i], key)
      {
        assert all[..i + 1][..i] == all[..i];
        if all[i].entry.key == key {
          continue;
        }
        kept := kept + [all[i]];
      }
      assert all[..|all|] == all;
      ring.entries := kept;
      ring.SortEntries();
    }
  }
}
