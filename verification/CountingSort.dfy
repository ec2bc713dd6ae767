/** Counting sort of algolib/source/ctsort.c, as a pass by an arbitrary key: the radix sort of
    rxsort.c makes the same pass once per digit. */
module CountingSort {
  import opened Ordering

  function ByKey(key: int -> int): (int, int) -> int {
    (x, y) => key(x) - key(y)
  }

  lemma ByKeyOrder(key: int -> int)
    ensures TotalPreorder(ByKey(key))
  {
    forall x, y, z | Chain(ByKey(key), x, y, z) ensures ByKey(key)(x, z) <= 0 {
      assert ByKey(key)(x, y) <= 0 && ByKey(key)(y, z) <= 0;
    }
  }

  function Keyed(key: int -> int, c: int): int -> bool {
    x => key(x) == c
  }

  function KeyedBelow(key: int -> int, c: int): int -> bool {
    x => key(x) < c
  }

  function Bucket(s: seq<int>, key: int -> int, c: int): seq<int> {
    Filter(s, Keyed(key, c))
  }

  /** How many elements have key c. */
  function Occurs(s: seq<int>, key: int -> int, c: int): nat {
    |Bucket(s, key, c)|
  }

  /** How many elements have a key below c. */
  function Below(s: seq<int>, key: int -> int, c: int): nat {
    |Filter(s, KeyedBelow(key, c))|
  }

  ghost predicate KeysIn(s: seq<int>, key: int -> int, k: int) {
    forall i :: 0 <= i < |s| ==> 0 <= key(s[i]) < k
  }

  lemma {:induction false} BelowNext(s: seq<int>, key: int -> int, c: int)
    ensures Below(s, key, c + 1) == Below(s, key, c) + Occurs(s, key, c)
  {
    if s != [] {
      BelowNext(s[1..], key, c);
    }
  }

  lemma {:induction false} BelowMonotone(s: seq<int>, key: int -> int, c: int, d: int)
    requires c <= d
    ensures Below(s, key, c) <= Below(s, key, d)
    decreases d - c
  {
    if c < d {
      BelowNext(s, key, d - 1);
      BelowMonotone(s, key, c, d - 1);
    }
  }

  lemma {:induction false} BelowEnds(s: seq<int>, key: int -> int, k: int)
    requires KeysIn(s, key, k)
    ensures Below(s, key, 0) == 0 && Below(s, key, k) == |s|
  {
    if s != [] {
      assert 0 <= key(s[0]) < k;
      BelowEnds(s[1..], key, k);
    }
  }

  lemma BucketSnoc(s: seq<int>, key: int -> int, j: nat, c: int)
    requires j < |s|
    ensures Bucket(s[..j + 1], key, c) == Bucket(s[..j], key, c) + if key(s[j]) == c then [s[j]] else []
    ensures Bucket(s[j..], key, c) == (if key(s[j]) == c then [s[j]] else []) + Bucket(s[j + 1..], key, c)
    ensures Occurs(s[..j], key, c) <= Occurs(s, key, c)
  {
    assert s[..j + 1] == s[..j] + [s[j]];
    FilterConcat(s[..j], [s[j]], Keyed(key, c));
    assert s == s[..j] + s[j..];
    FilterConcat(s[..j], s[j..], Keyed(key, c));
  }

  // ----- where each element goes

  /** The slot of element j: behind all smaller keys and behind its equals to the left. */
  function Slot(s: seq<int>, key: int -> int, j: nat): nat
    requires j < |s|
  {
    Below(s, key, key(s[j])) + Occurs(s[..j], key, key(s[j]))
  }

  lemma {:induction false} OccursMonotone(s: seq<int>, key: int -> int, i: nat, j: nat, c: int)
    requires i <= j <= |s|
    ensures Occurs(s[..i], key, c) <= Occurs(s[..j], key, c)
    decreases j - i
  {
    if i < j {
      BucketSnoc(s, key, j - 1, c);
      OccursMonotone(s, key, i, j - 1, c);
    }
  }

  /** Every element has a slot of its own, in the block of its key. */
  lemma SlotsDistinct(s: seq<int>, key: int -> int, k: int, i: nat, j: nat)
    requires KeysIn(s, key, k) && i < j < |s|
    ensures Slot(s, key, i) != Slot(s, key, j)
  {
    hide Below, Bucket, KeysIn;
    SlotInBlock(s, key, i);
    SlotInBlock(s, key, j);
    var ci, cj := key(s[i]), key(s[j]);
    if ci < cj {
      BelowMonotone(s, key, ci + 1, cj);
    } else if cj < ci {
      BelowMonotone(s, key, cj + 1, ci);
    } else {
      BucketSnoc(s, key, i, ci);
      OccursMonotone(s, key, i + 1, j, ci);
    }
  }

  lemma SlotInRange(s: seq<int>, key: int -> int, k: int, j: nat)
    requires KeysIn(s, key, k) && j < |s|
    ensures Slot(s, key, j) < |s|
  {
    SlotInBlock(s, key, j);
    BelowEnds(s, key, k);
    assert s[j] in s;
    BelowMonotone(s, key, key(s[j]) + 1, k);
  }

  lemma SlotInBlock(s: seq<int>, key: int -> int, j: nat)
    requires j < |s|
    ensures Below(s, key, key(s[j])) <= Slot(s, key, j) < Below(s, key, key(s[j]) + 1)
  {
    BucketSnoc(s, key, j, key(s[j]));
    OccursMonotone(s, key, j + 1, |s|, key(s[j]));
    assert s[..|s|] == s;
    BelowNext(s, key, key(s[j]));
  }

  // ----- the buckets one after the other are the stable sort

  function Buckets(s: seq<int>, key: int -> int, c: nat): seq<int> {
    if c == 0 then [] else Buckets(s, key, c - 1) + Bucket(s, key, c - 1)
  }

  lemma {:induction false} BucketsMember(s: seq<int>, key: int -> int, c: nat, x: int)
    ensures x in Buckets(s, key, c) ==> x in s && 0 <= key(x) < c
  {
    if c > 0 {
      BucketsMember(s, key, c - 1, x);
      FilterMember(s, Keyed(key, c - 1), x);
    }
  }

  lemma {:induction false} BucketsSorted(s: seq<int>, key: int -> int, c: nat)
    ensures Sorted(ByKey(key), Buckets(s, key, c))
  {
    if c > 0 {
      var front, last := Buckets(s, key, c - 1), Bucket(s, key, c - 1);
      BucketsSorted(s, key, c - 1);
      forall i | 0 <= i < |front| ensures key(front[i]) < c - 1 {
        BucketsMember(s, key, c - 1, front[i]);
      }
      forall i | 0 <= i < |last| ensures key(last[i]) == c - 1 {
        FilterMember(s, Keyed(key, c - 1), last[i]);
      }
    }
  }

  lemma {:induction false} BucketOfBuckets(s: seq<int>, key: int -> int, c: nat, b: int)
    ensures Bucket(Buckets(s, key, c), key, b) == if 0 <= b < c then Bucket(s, key, b) else []
  {
    if c > 0 {
      var last := Bucket(s, key, c - 1);
      BucketOfBuckets(s, key, c - 1, b);
      FilterConcat(Buckets(s, key, c - 1), last, Keyed(key, b));
      if b == c - 1 {
        FilterFilter(s, Keyed(key, b), Keyed(key, b), Keyed(key, b));
      } else {
        forall x | x in last ensures !Keyed(key, b)(x) {
          FilterMember(s, Keyed(key, c - 1), x);
        }
        FilterNone(last, Keyed(key, b));
      }
    }
  }

  lemma ClassIsBucket(s: seq<int>, key: int -> int, x: int)
    ensures Class(ByKey(key), s, x) == Bucket(s, key, key(x))
  {
    FilterCongruent(s, Ties(ByKey(key), x), Keyed(key, key(x)));
  }

  lemma BucketsAreStableSort(s: seq<int>, key: int -> int, k: nat)
    requires KeysIn(s, key, k)
    ensures StableSortOf(ByKey(key), s, Buckets(s, key, k))
  {
    var t := Buckets(s, key, k);
    BucketsSorted(s, key, k);
    forall x ensures Class(ByKey(key), s, x) == Class(ByKey(key), t, x) {
      ClassIsBucket(s, key, x);
      ClassIsBucket(t, key, x);
      BucketOfBuckets(s, key, k, key(x));
      if !(0 <= key(x) < k) {
        forall y | y in s ensures !Keyed(key, key(x))(y) {
          var i :| 0 <= i < |s| && s[i] == y;
          assert 0 <= key(s[i]) < k;
        }
        FilterNone(s, Keyed(key, key(x)));
      }
    }
  }

  /** A sequence that holds every bucket in its block is the concatenation of the buckets. */
  lemma {:induction false} BlocksAreBuckets(s: seq<int>, t: seq<int>, key: int -> int, k: nat, c: nat)
    requires KeysIn(s, key, k) && |t| == |s| && c <= k
    requires Below(s, key, c) <= |s|
    requires forall b :: 0 <= b < k ==> BlockDone(s, t, key, b, 0)
    ensures t[..Below(s, key, c)] == Buckets(s, key, c)
  {
    BelowEnds(s, key, k);
    if c > 0 {
      BelowNext(s, key, c - 1);
      BlocksAreBuckets(s, t, key, k, c - 1);
      assert BlockDone(s, t, key, c - 1, 0);
      var m, n := Below(s, key, c - 1), Below(s, key, c);
      assert t[..n] == t[..m] + t[m..n];
      assert s[0..] == s && s[..0] == [];
    }
  }

  /** The part of bucket b that comes from s[j..] stands at the end of its block in t. */
  ghost predicate BlockDone(s: seq<int>, t: seq<int>, key: int -> int, b: int, j: nat) {
    var from := Below(s, key, b) + if j <= |s| then Occurs(s[..j], key, b) else 0;
    var to := Below(s, key, b + 1);
    j <= |s| && from <= to <= |t| && t[from..to] == Bucket(s[j..], key, b)
  }

  lemma NothingPlaced(s: seq<int>, t: seq<int>, key: int -> int, k: nat, b: int)
    requires KeysIn(s, key, k) && |t| == |s| && 0 <= b < k
    ensures BlockDone(s, t, key, b, |s|)
  {
    BelowNext(s, key, b);
    BelowEnds(s, key, k);
    BelowMonotone(s, key, b + 1, k);
    assert s[..|s|] == s;
  }

  lemma Placed(s: seq<int>, t: seq<int>, key: int -> int, k: nat, j: nat, b: int)
    requires KeysIn(s, key, k) && |t| == |s| && j < |s|
    requires BlockDone(s, t, key, b, j + 1)
    ensures Slot(s, key, j) < |s| && BlockDone(s, t[Slot(s, key, j) := s[j]], key, b, j)
  {
    hide Below, Bucket, KeysIn, Slot;
    SlotInRange(s, key, k, j);
    BucketSnoc(s, key, j, b);
    var slot, from, to := Slot(s, key, j), Below(s, key, b) + Occurs(s[..j + 1], key, b), Below(s, key, b + 1);
    if b == key(s[j]) {
      SlotIsNext(s, key, j);
      Prepend(t, slot, to, s[j]);
    } else {
      SlotElsewhere(s, key, j, b);
      assert t[slot := s[j]][from..to] == t[from..to];
    }
  }

  lemma SlotIsNext(s: seq<int>, key: int -> int, j: nat)
    requires j < |s|
    ensures Slot(s, key, j) + 1 == Below(s, key, key(s[j])) + Occurs(s[..j + 1], key, key(s[j]))
  {
    BucketSnoc(s, key, j, key(s[j]));
  }

  lemma SlotElsewhere(s: seq<int>, key: int -> int, j: nat, b: int)
    requires j < |s| && b != key(s[j])
    ensures Slot(s, key, j) < Below(s, key, b) || Below(s, key, b + 1) <= Slot(s, key, j)
  {
    SlotInBlock(s, key, j);
    if b < key(s[j]) {
      BelowMonotone(s, key, b + 1, key(s[j]));
    } else {
      BelowMonotone(s, key, key(s[j]) + 1, b);
    }
  }

  lemma Prepend(t: seq<int>, slot: nat, to: nat, x: int)
    requires slot < to <= |t|
    ensures t[slot := x][slot..to] == [x] + t[slot + 1..to]
  {
  }

  // ----- the loops

  ghost predicate Counted(s: seq<int>, key: int -> int, counts: seq<int>, j: nat)
    requires j <= |s|
  {
    forall c :: 0 <= c < |counts| ==> counts[c] == Occurs(s[..j], key, c)
  }

  ghost predicate Summed(s: seq<int>, key: int -> int, counts: seq<int>, i: nat) {
    forall c :: 0 <= c < |counts| ==> counts[c] == if c < i then Below(s, key, c + 1) else Occurs(s, key, c)
  }

  /** counts[c] is one past the slot of the last element of s[..j] with key c. */
  ghost predicate Remaining(s: seq<int>, key: int -> int, counts: seq<int>, j: nat)
    requires j <= |s|
  {
    forall c :: 0 <= c < |counts| ==> counts[c] == Below(s, key, c) + Occurs(s[..j], key, c)
  }

  lemma CountedNext(s: seq<int>, key: int -> int, counts: seq<int>, j: nat)
    requires j < |s| && 0 <= key(s[j]) < |counts| && Counted(s, key, counts, j)
    ensures Counted(s, key, counts[key(s[j]) := counts[key(s[j])] + 1], j + 1)
  {
    var next := counts[key(s[j]) := counts[key(s[j])] + 1];
    forall c | 0 <= c < |counts| ensures next[c] == Occurs(s[..j + 1], key, c) {
      BucketSnoc(s, key, j, c);
    }
  }

  lemma SummedFirst(s: seq<int>, key: int -> int, k: int, counts: seq<int>)
    requires KeysIn(s, key, k) && Counted(s, key, counts, |s|)
    ensures Summed(s, key, counts, 1)
  {
    assert s[..|s|] == s;
    BelowEnds(s, key, k);
    BelowNext(s, key, 0);
  }

  lemma SummedNext(s: seq<int>, key: int -> int, counts: seq<int>, i: nat)
    requires 1 <= i < |counts| && Summed(s, key, counts, i)
    ensures Summed(s, key, counts[i := counts[i] + counts[i - 1]], i + 1)
  {
    BelowNext(s, key, i);
  }

  lemma RemainingAll(s: seq<int>, key: int -> int, counts: seq<int>, i: nat)
    requires |counts| <= i && Summed(s, key, counts, i)
    ensures Remaining(s, key, counts, |s|)
  {
    assert s[..|s|] == s;
    forall c | 0 <= c < |counts| ensures counts[c] == Below(s, key, c) + Occurs(s[..|s|], key, c) {
      BelowNext(s, key, c);
    }
  }

  lemma RemainingNext(s: seq<int>, key: int -> int, k: int, counts: seq<int>, j: nat)
    requires KeysIn(s, key, k) && j < |s| && |counts| == k && Remaining(s, key, counts, j + 1)
    ensures 0 <= key(s[j]) < k && counts[key(s[j])] - 1 == Slot(s, key, j)
    ensures Remaining(s, key, counts[key(s[j]) := counts[key(s[j])] - 1], j)
  {
    assert s[j] in s;
    SlotIsNext(s, key, j);
    var next := counts[key(s[j]) := counts[key(s[j])] - 1];
    forall c | 0 <= c < |counts| ensures next[c] == Below(s, key, c) + Occurs(s[..j], key, c) {
      BucketSnoc(s, key, j, c);
    }
  }

  ghost predicate AllBlocks(s: seq<int>, t: seq<int>, key: int -> int, k: int, j: nat) {
    |t| == |s| && forall b :: 0 <= b < k ==> BlockDone(s, t, key, b, j)
  }

  lemma AllBlocksNext(s: seq<int>, t: seq<int>, key: int -> int, k: nat, j: nat)
    requires KeysIn(s, key, k) && j < |s| && AllBlocks(s, t, key, k, j + 1)
    ensures Slot(s, key, j) < |s| && AllBlocks(s, t[Slot(s, key, j) := s[j]], key, k, j)
  {
    hide KeysIn, Slot, BlockDone;
    SlotInRange(s, key, k, j);
    var t' := t[Slot(s, key, j) := s[j]];
    forall b | 0 <= b < k ensures BlockDone(s, t', key, b, j) {
      Placed(s, t, key, k, j, b);
    }
  }

  lemma AllPlaced(s: seq<int>, t: seq<int>, key: int -> int, k: nat)
    requires KeysIn(s, key, k) && AllBlocks(s, t, key, k, 0)
    ensures StableSortOf(ByKey(key), s, t)
  {
    BelowEnds(s, key, k);
    BlocksAreBuckets(s, t, key, k, k);
    assert t[..|s|] == t;
    BucketsAreStableSort(s, key, k);
  }

  lemma KeysInAt(s: seq<int>, key: int -> int, k: int, j: nat)
    requires KeysIn(s, key, k) && j < |s|
    ensures 0 <= key(s[j]) < k
  {
    assert s[j] in s;
  }

  method CountKeys(data: array<int>, counts: array<int>, k: nat, key: int -> int)
    requires data != counts && counts.Length == k && KeysIn(data[..], key, k)
    modifies counts
    ensures Counted(data[..], key, counts[..], data.Length)
  {
    for i := 0 to k
      invariant forall c :: 0 <= c < i ==> counts[c] == 0
    {
      counts[i] := 0;
    }
    hide Occurs, KeysIn;
    ghost var s := data[..];
    assert Counted(s, key, counts[..], 0) by {
      NoneCounted(s, key, counts[..]);
    }
    for j := 0 to data.Length
      invariant data[..] == s && Counted(s, key, counts[..], j)
    {
      KeysInAt(s, key, k, j);
      CountedNext(s, key, counts[..], j);
      ghost var before, index := counts[..], key(data[j]);
      counts[key(data[j])] := counts[key(data[j])] + 1;
      assert counts[..] == before[index := before[index] + 1];
    }
  }

  lemma NoneCounted(s: seq<int>, key: int -> int, counts: seq<int>)
    requires forall c :: 0 <= c < |counts| ==> counts[c] == 0
    ensures Counted(s, key, counts, 0)
  {
  }

  method Accumulate(counts: array<int>, ghost s: seq<int>, ghost key: int -> int)
    requires KeysIn(s, key, counts.Length) && Counted(s, key, counts[..], |s|)
    modifies counts
    ensures Remaining(s, key, counts[..], |s|)
  {
    hide *;
    SummedFirst(s, key, counts.Length, counts[..]);
    var i := 1;
    while i < counts.Length
      invariant 1 <= i && Summed(s, key, counts[..], i)
    {
      SummedNext(s, key, counts[..], i);
      ghost var before := counts[..];
      counts[i] := counts[i] + counts[i - 1];
      assert counts[..] == before[i := before[i] + before[i - 1]];
      i := i + 1;
    }
    RemainingAll(s, key, counts[..], i);
  }

  /** The m-th write goes to slots[m]: no slot is written twice, and each holds the element that was written to
      it, taken from s from the last one backwards. */
  ghost predicate WrittenOnce(s: seq<int>, t: seq<int>, slots: seq<int>) {
    && |t| == |s| && |slots| <= |s|
    && (forall m :: 0 <= m < |slots| ==> 0 <= slots[m] < |t| && t[slots[m]] == s[|s| - 1 - m])
    && (forall m, n :: 0 <= m < n < |slots| ==> slots[m] != slots[n])
  }

  /** And they are the slots of the elements. */
  ghost predicate InSlots(s: seq<int>, key: int -> int, slots: seq<int>) {
    |slots| <= |s| && forall m :: 0 <= m < |slots| ==> slots[m] == Slot(s, key, |s| - 1 - m)
  }

  /** The next element goes where none has been written. */
  lemma WriteNext(s: seq<int>, t: seq<int>, key: int -> int, k: int, slots: seq<int>, j: nat)
    requires KeysIn(s, key, k) && j < |s| && |slots| == |s| - 1 - j
    requires WrittenOnce(s, t, slots) && InSlots(s, key, slots)
    ensures Slot(s, key, j) < |t| && WrittenOnce(s, t[Slot(s, key, j) := s[j]], slots + [Slot(s, key, j)])
    ensures InSlots(s, key, slots + [Slot(s, key, j)])
  {
    hide KeysIn, Slot;
    SlotInRange(s, key, k, j);
    forall m | 0 <= m < |slots| ensures slots[m] != Slot(s, key, j) {
      SlotsDistinct(s, key, k, j, |s| - 1 - m);
    }
  }

  /** The backward loop. `slots` are the places it writes to. */
  method Place(data: array<int>, counts: array<int>, temp: array<int>, k: nat, key: int -> int)
    returns (ghost slots: seq<int>)
    requires data != counts && counts != temp && data != temp
    requires counts.Length == k && temp.Length == data.Length
    requires KeysIn(data[..], key, k) && Remaining(data[..], key, counts[..], data.Length)
    modifies counts, temp
    ensures StableSortOf(ByKey(key), data[..], temp[..])
    ensures |slots| == data.Length && WrittenOnce(data[..], temp[..], slots) && InSlots(data[..], key, slots)
  {
    hide *;
    ghost var s := data[..];
    slots := [];
    StartPlacing(s, temp[..], key, k);
    var j := data.Length - 1;
    while j >= 0
      invariant -1 <= j < data.Length
      invariant data[..] == s
      invariant Remaining(s, key, counts[..], j + 1)
      invariant AllBlocks(s, temp[..], key, k, j + 1)
      invariant |slots| == data.Length - 1 - j && WrittenOnce(s, temp[..], slots) && InSlots(s, key, slots)
    {
      RemainingNext(s, key, k, counts[..], j);
      AllBlocksNext(s, temp[..], key, k, j);
      WriteNext(s, temp[..], key, k, slots, j);
      ghost var t, before := temp[..], counts[..];
      slots := slots + [counts[key(data[j])] - 1];
      temp[counts[key(data[j])] - 1] := data[j];
      counts[key(data[j])] := counts[key(data[j])] - 1;
      assert temp[..] == t[Slot(s, key, j) := s[j]];
      assert counts[..] == before[key(s[j]) := before[key(s[j])] - 1];
      j := j - 1;
    }
    AllPlaced(s, temp[..], key, k);
  }

  lemma StartPlacing(s: seq<int>, t: seq<int>, key: int -> int, k: nat)
    requires KeysIn(s, key, k) && |t| == |s|
    ensures AllBlocks(s, t, key, k, |s|) && WrittenOnce(s, t, []) && InSlots(s, key, [])
  {
    forall b | 0 <= b < k ensures BlockDone(s, t, key, b, |s|) {
      NothingPlaced(s, t, key, k, b);
    }
  }

  /** One pass: data becomes its stable sort by key, every slot of temp being written exactly once. */
  method CountingPass(data: array<int>, counts: array<int>, temp: array<int>, k: nat, key: int -> int)
    returns (ghost slots: seq<int>)
    requires data != counts && counts != temp && data != temp
    requires counts.Length == k && temp.Length == data.Length
    requires KeysIn(data[..], key, k)
    modifies data, counts, temp
    ensures StableSortOf(ByKey(key), old(data[..]), data[..])
    ensures |slots| == data.Length && WrittenOnce(old(data[..]), data[..], slots) && InSlots(old(data[..]), key, slots)
  {
    hide *;
    ghost var s := data[..];
    CountKeys(data, counts, k, key);
    assert data[..] == s;
    Accumulate(counts, s, key);
    assert data[..] == s;
    slots := Place(data, counts, temp, k, key);
    assert data[..] == s && StableSortOf(ByKey(key), s, temp[..]);
    ghost var sorted := temp[..];
    forall i | 0 <= i < data.Length {
      data[i] := temp[i];
    }
    assert data[..] == sorted;
  }

  function Itself(): int -> int {
    x => x
  }

  lemma ByItself(s: seq<int>, t: seq<int>)
    requires StableSortOf(ByKey(Itself()), s, t)
    ensures StableSortOf(CompareInt, s, t)
  {
    forall x ensures Class(CompareInt, s, x) == Class(CompareInt, t, x) {
      FilterCongruent(s, Ties(CompareInt, x), Ties(ByKey(Itself()), x));
      FilterCongruent(t, Ties(CompareInt, x), Ties(ByKey(Itself()), x));
      assert Class(ByKey(Itself()), s, x) == Class(ByKey(Itself()), t, x);
    }
    forall i, j | 0 <= i < j < |t| ensures CompareInt(t[i], t[j]) <= 0 {
      assert ByKey(Itself())(t[i], t[j]) <= 0;
    }
  }

  method CtSort(data: array<int>, k: nat) returns (ghost slots: seq<int>)
    requires forall j :: 0 <= j < data.Length ==> 0 <= data[j] < k
    modifies data
    ensures StableSortOf(CompareInt, old(data[..]), data[..])
    ensures multiset(data[..]) == multiset(old(data[..]))
    ensures forall i, j :: 0 <= i < j < data.Length ==> data[i] <= data[j]
    ensures |slots| == data.Length
    ensures WrittenOnce(old(data[..]), data[..], slots) && InSlots(old(data[..]), Itself(), slots)
  {
    hide StableSortOf, WrittenOnce, InSlots;
    var counts := new int[k];
    var temp := new int[data.Length];
    ghost var s := data[..];
    assert KeysIn(s, Itself(), k);
    slots := CountingPass(data, counts, temp, k, Itself());
    ByItself(s, data[..]);
    SortedInts(s, data[..]);
  }

  lemma SortedInts(s: seq<int>, t: seq<int>)
    requires StableSortOf(CompareInt, s, t)
    ensures multiset(t) == multiset(s) && forall i, j :: 0 <= i < j < |t| ==> t[i] <= t[j]
  {
    IntOrder();
    SameClassesSameElements(CompareInt, s, t);
    forall i, j | 0 <= i < j < |t| ensures t[i] <= t[j] {
      assert CompareInt(t[i], t[j]) <= 0;
    }
  }
}
