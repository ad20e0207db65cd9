# rings — a verified Dafny model

This project models the core of the Go library `rings`, which spreads
requests over a set of entries. Each entry has a stable string key. Three
parts are modelled:

- **The consistent-hash range table** (`HashRing`, hashed.go, module `Hashed`).
  - Records `{Entry, Active, Low, High}` own half-open ranges of the keyspace
    `[0, 256)` and are kept ordered by `(High, Low)`.
  - `NewHashed` splits the keyspace evenly over its initial entries.
  - `AddDeclared` inserts a range only if it shares no slot with an existing one.
  - `Add` halves the largest active range and stages the upper half as an
    inactive entry. It returns an activate/cancel pair. The model turns that
    pair into a `PendingChange` handle that holds the staged entry and its
    source entry.
  - A lookup takes a 64-bit digest modulo 256, finds the first entry holding
    that slot, and falls back to the nearest active entry earlier in the list.
- **The immutable round-robin ring** (`ImmutableRing`, immutable.go, module
  `Immutable`).
  - It is built once from a non-empty list of values with distinct keys.
  - The values are copied cyclically into an array whose size is a power of two.
  - A 32-bit sequence counter addresses that array through the mask
    `capacity - 1`.
- **The sequence counter** (`Sequence`, sequence.go, module `Sequencer`). It is
  a 32-bit counter whose `Next` returns the old value and whose `Value`
  returns the counter minus one, both modulo 2^32.

Module `Entries` holds the shared pieces:

- the `Entry` capability (an identity key and a text form);
- `Option`;
- the `u32` and `u64` subset types, which give Go's unsigned widths.

Go's wrap-around is written out where it matters:

- `Sub64` for `High - Low`;
- `Succ`/`Pred` for the counter;
- the uint32 product `capacity * align` in `NewImmutable`, which wraps to 0
  for more than 2^28 values (`ElementsLengthWraps`).

Objects whose fields the Go code mutates are Dafny classes:

- `HashRingEntry`'s `active`, `low` and `high` are mutable fields.
- `HashRing.entries` is a `seq` field that the methods reassign.
- `ImmutableRing.elements` is an `array`.
- `Sequence.value` is a mutable field.

The table's invariants are predicates over the entry sequence:

- `SortedByRange`: ordered by `(High, Low)`;
- `Disjoint`: no two entries share a slot;
- `Covering`: every slot 0..255 is held by some entry;
- `WellFormed`: `Low <= High` for every entry.

Each operation states in its contract whether these invariants are preserved.

## Model

| member | source | states |
|---|---|---|
| Sequencer.Succ | sequence.go:18-21 | the uint32 increment is `(x + 1) mod 2^32`, and `Pred` undoes it |
| Sequencer.Pred | sequence.go:23-26 | the uint32 decrement is `(x - 1) mod 2^32`, so 0 becomes 2^32 - 1 |
| Sequencer.IssuedAt | sequence.go:18-21 | call i of a run of `Next` calls started at s returns `(s + i) mod 2^32` |
| Sequencer.IssuedDistinct | sequence.go:18-21 | up to 2^32 consecutive `Next` calls return pairwise distinct values |
| Sequencer.IssuedFromZero | sequence.go:5-21 | from a fresh counter, k <= 2^32 calls return exactly 0, 1, ..., k - 1 |
| Sequencer.Sequence.constructor | sequence.go:5-11 | the counter starts at 0 and the padding holds 0..6 |
| Sequencer.Sequence.Next | sequence.go:18-21 | returns the value before the call; the counter becomes its uint32 successor; the padding is unchanged |
| Sequencer.Sequence.NextRun | sequence.go:18-21 | k consecutive `Next` calls return exactly `Issued(s, k)`, that is s, s+1, ..., s+k-1 mod 2^32, and leave the padding unchanged |
| Sequencer.Sequence.Value | sequence.go:23-26 | returns the counter minus one mod 2^32, which is the last value `Next` returned (2^32 - 1 on a fresh counter); nothing changes |
| Immutable.MaskIsMod | immutable.go:138-142 | `x & (2^k - 1)` equals `x mod 2^k` |
| Immutable.WrapThenMod | immutable.go:95-96 | reducing the counter mod 2^32 before reducing mod a power-of-two capacity changes nothing |
| Immutable.LastSlot | immutable.go:102-107 | the fresh counter's `Value()`, 2^32 - 1, masks to the last slot |
| Immutable.CapacityFor | immutable.go:31-40 | the doubling loop ends at capacity `2^k` with k >= 1 and capacity >= n, and `2^(k-1) < n` unless k = 1 |
| Immutable.CapacityIsLeast | immutable.go:31-40 | capacity is the least `2^j` (j >= 1) holding n values, is at least 2, equals 2 for n <= 2, and is below 2n for n > 2 |
| Immutable.ShiftInRange | immutable.go:31-40 | for at most 2^31 values the exponent is at most 31, so the capacity fits in uint32 |
| Immutable.DistinctIffCountsAtMostOne | immutable.go:15-30 | no two values share a key exactly when every key count is at most 1 |
| Immutable.CountKeys | immutable.go:15-20 | the map holds exactly the keys that occur, each with its number of occurrences |
| Immutable.FillRepeats | immutable.go:41-45 | each value lands in at least `floor(capacity / n)` slots, namely `j + t*n` |
| Immutable.FillCyclic | immutable.go:41-45 | slot i of `filledValues` holds `values[i mod n]` for every i < capacity |
| Immutable.PlaceMasked | immutable.go:71-73 | writing `filledValues[i]` through the mask puts it at slot i, so the element array equals `filledValues` |
| Immutable.CheckValues | immutable.go:11-30 | the values are accepted exactly when the list is non-empty and no key occurs twice |
| Immutable.ElementsLengthWraps | immutable.go:48-56 | the uint32 slot count `capacity * align` (align 8) wraps to 0, so that `&elements[0]` panics, exactly when there are more than 2^28 values |
| Immutable.ImmutableRing.constructor | immutable.go:31-76 | for 1..2^28 distinct values the ring is `Valid`: size `2^shift`, mask `size - 1`, slot i holds `values[i mod n]`, and it gets a fresh counter at 0 |
| Immutable.ImmutableRing.New | immutable.go:10-76 | fails (no ring) exactly when the values are empty, a key repeats, or there are more than 2^28 values; otherwise a valid fresh ring whose size is the least admissible power of two |
| Immutable.ImmutableRing.ElementAt | immutable.go:138-142 | the masked read returns slot `idx mod size`, which holds `values[idx mod size mod n]` |
| Immutable.ImmutableRing.Next | immutable.go:95-100 | call number k over the ring's lifetime returns slot `k mod size`, a cycle of period `size` over the values; only the counter changes, not its padding |
| Immutable.ImmutableRing.Head | immutable.go:102-107 | always has = true; returns the slot the last `Next` returned, or the last slot on a fresh ring |
| Immutable.ImmutableRing.Get | immutable.go:109-119 | found exactly when some value has the key, and then it is that value |
| Hashed.Sub64 | hashed.go:37-39 | uint64 subtraction: `b + r == a (mod 2^64)`, and `r == a - b` when `b <= a` |
| Hashed.Mid | hashed.go:175 | for `Low <= High` the split point lies in the range, and the upper half is larger by 0 or 1 |
| Hashed.SplitSizes | hashed.go:175-177 | the two halves' sizes add up to the old size |
| Hashed.OverlapIffSharedSlot | hashed.go:274-284 | `max(lows) < min(highs)` holds exactly when some integer lies in both ranges; empty ranges overlap nothing |
| Hashed.Intersect | hashed.go:274-284 | the nested loop returns true exactly when the ranges overlap |
| Hashed.HashRingEntry.constructor | hashed.go:162-167 | the record holds the given entry, flag and bounds |
| Hashed.HashRingEntry.RangeSize | hashed.go:37-39 | `Low + size == High (mod 2^64)`, and `size == High - Low` when `Low <= High` |
| Hashed.LessIsStrictOrder | hashed.go:30-35 | `Less` is irreflexive, asymmetric and transitive, and total up to equal `(High, Low)` |
| Hashed.FirstCovering | hashed.go:84-91 | the first position whose range holds the slot: nothing before it holds the slot |
| Hashed.LastActiveUpTo | hashed.go:93-107 | the last active position at or before i, or -1; everything after it up to i is inactive |
| Hashed.DisjointOwnerIsFirst | hashed.go:84-91 | with disjoint ranges, the first entry found for a slot is its unique holder |
| Hashed.WithoutKey | hashed.go:194-200 | the filter keeps every entry whose key differs, with its multiplicity, and drops every entry with the key |
| Hashed.EvenSplitTiles | hashed.go:122-127 | entry 0 starts at 0; entry i ends where entry i+1 starts; the last ends at 256; every range is non-empty for n <= 256 |
| Hashed.EvenSplitOrdered | hashed.go:122-127 | earlier split ranges end before later ones start |
| Hashed.EvenSplitOwner | hashed.go:122-127 | every slot below 256 lies in the range of some entry of the split |
| Hashed.EvenSplitIsTable | hashed.go:111-134 | the even split is sorted, disjoint and well-formed, and it covers `[0, 256)` when non-empty |
| Hashed.NewEntries | hashed.go:113-121 | one fresh, distinct, active record per entry, in order |
| Hashed.AssignSpans | hashed.go:122-127 | entry i gets `[span*i, span*(i+1))` with `span = 256/n`, the last one's High is 256, and flags are untouched |
| Hashed.EvenSplit | hashed.go:111-128 | the records of `NewHashed`: entry, active flag and split bounds for each position |
| Hashed.WithoutAddedKey | hashed.go:189-204 | removing the key of the one added entry gives back the old multiset of entries |
| Hashed.InsertSorted | hashed.go:58-69 | insertion keeps the list ordered by `Less` and adds exactly one entry |
| Hashed.HashRing.constructor | hashed.go:111-134 | `NewHashed`: the even split for 1..256 entries, all active, sorted, disjoint, covering; empty input gives an empty ring |
| Hashed.HashRing.Size | hashed.go:236-239 | the number of entries |
| Hashed.HashRing.SortEntries | hashed.go:58-69 | `sort.Sort`: the list ends ordered by `(High, Low)` and holds the same entries |
| Hashed.HashRing.GetSlot | hashed.go:83-109 | returns the first entry holding the slot if it is active, else the nearest active one before it, else has = false |
| Hashed.HashRing.Get | hashed.go:141-153 | resolves `digest mod 256` through the slot lookup; with disjoint ranges, an active holder of the slot is the answer |
| Hashed.HashRing.BiggestRangeAndActiveOne | hashed.go:71-81 | returns null or an active entry; the largest range when all entries are active; the list ends sorted with the same entries |
| Hashed.HashRing.SplitAt | hashed.go:175-180 | source keeps `[Low, mid)`, the staged entry takes `[mid, High)`, the list is re-sorted, and coverage, well-formedness and disjointness carry over |
| Hashed.HashRing.SplitBiggest | hashed.go:170-181 | the list ends sorted; no candidate means the same entries; otherwise the split of an active source, with the largest range chosen when all are active |
| Hashed.HashRing.Stage | hashed.go:158-181 | a full ring or no candidate means nothing is staged; an empty ring always stages `[0, 256)`; otherwise the source's upper half is staged inactive; below 256 entries the list ends sorted |
| Hashed.HashRing.Add | hashed.go:155-207 | ok exactly when a change is staged, and always on an empty ring; `cLow`/`cHigh` are the staged bounds; `prevActive` is the source's entry; only the source changes; below 256 entries the list ends sorted; the invariants are preserved |
| Hashed.HashRing.Admits | hashed.go:224-228 | the scan finds no intersecting entry exactly when no entry, active or staged, overlaps `[low, high)` |
| Hashed.HashRing.AddDeclared | hashed.go:209-234 | ok exactly when the ring holds fewer than 256 entries and the range overlaps none; then one active `[low, high)` entry is added and the list stays sorted; disjointness and coverage are preserved |
| Hashed.HashRing.AddThenCancel | hashed.go:155-204 | `Add` followed by its cancel, for a new key, restores the entries and every range and flag |
| Hashed.HashRing.State | hashed.go:241-252 | has exactly when some entry has the key; then the flag and bounds of the first such entry, else zeros |
| Hashed.HashRing.States | hashed.go:254-261 | visits entries in order with their key, flag and bounds, and stops right after the first call that returns false |
| Hashed.PendingChange.constructor | hashed.go:184-204 | the handle captures the ring, the staged entry and the source |
| Hashed.PendingChange.Activate | hashed.go:184-188 | only the staged entry's flag changes, to active |
| Hashed.PendingChange.Cancel | hashed.go:189-204 | the source gets back the staged High; every entry with the added key is dropped; the list is re-sorted |

## Left out

- ring.go (the mutable circular linked list) is not part of this model.
- Entry: entry.go is not part of this model. An entry is a datatype with an identity key and a text form, and only the key is compared.
- The xxhash digest of `HashRing.Get` is a foreign library. It becomes the parameter `digest`, and only the `% 256` is modelled.
- Locking (`sync.RWMutex`, including the locking inside the activate and cancel closures) and the atomic operations of sequence.go are left out. Every operation is modelled as sequential and atomic.
- The `unsafe` addressing of immutable.go (`elementBasePtr`, `elementMSize`) is modelled as plain indexing: `elementAt(idx)` reads `elements[idx & mask]`. The Go code writes and reads through the same address formula, so the indexing is the same. Of the `capacity * align` slots Go allocates, the model keeps only the `capacity` slots at multiples of `align`, the only ones ever used.
- `align` is fixed at 8, the alignment of a slice header on a 64-bit platform. A 32-bit platform (align 4, wrap above 2^29 values) is not modelled.
- The floating-point `math.Pow` and `math.Log2` are left out. The capacity is an integer power of two, and `shift` is the exponent reached by the doubling loop.
- The `String()` renderings of hashed.go and immutable.go are diagnostic text and are left out.
- `sort.Sort` is modelled as an insertion sort whose contract is "sorted by `(High, Low)` and the same entries". The library's own algorithm, and the order it leaves among entries with equal `(High, Low)`, are not modelled.
- Immutable.ImmutableRing.New: requires at most 2^31 values. Above that the Go code truncates `len(values)` to uint32 and converts an out-of-range float to uint32, which is not modelled.
- Immutable.ImmutableRing.New: the Go code panics on an empty or duplicated list, and on more than 2^28 values, where the uint32 product `capacity * align` wraps to 0 and `&elements[0]` indexes an empty slice. The model returns null in all three cases, so no ring exists afterwards.
- Hashed.HashRing.BiggestRangeAndActiveOne: the contract is weaker than "the entry with the largest range". Go sorts by range size with a comparator that also looks at the Active flag. That comparator is not a strict weak order when inactive entries are present, so the chosen entry depends on the sort's internals. The contract promises only that the result is null or an active entry, and that it is a largest range when every entry is active. The body picks one answer allowed by that contract.
- Hashed.HashRing.GetSlot: requires some entry to hold the slot. The Go code indexes `entries[-1]` and panics otherwise, including on an empty ring.
- Hashed.HashRing.Get: requires some entry to hold `digest % 256`, for the same reason.
- Hashed.PendingChange.Cancel: requires a non-empty ring. The Go code allocates a slice of capacity `Len() - 1`, which panics when the ring is empty.
- Hashed.HashRing.AddThenCancel: requires that no entry already has the key. Cancel removes every entry with the key, so a duplicate key would take other entries with it.
- Hashed.HashRing.Add: disjointness is promised only for rings whose ranges are well-formed. `AddDeclared` accepts an inverted range (`low > high`), and `Mid` of an inverted range wraps around in uint64.
- Hashed.HashRing.AddDeclared: well-formedness is preserved only when `low <= high`, because the Go code does not reject inverted ranges.
- Hashed.PendingChange.Cancel: coverage and disjointness are not promised for a cancel issued after other changes. Restoring the source's High can then overlap a range added in between. The full restore is stated for an immediate cancel by `AddThenCancel`.
- Test files hold example traces that only print and are not modelled.
