/**
 The pointer set that starts as a small unordered array and becomes a hash table with tombstones,
 proved to behave as a mathematical set.
 */
module SmallPtrSets {
  import opened Powers
  import opened Sets
  import opened Probing

  type Pointer = nat

  /** The low bits of a pointer are dropped before the table size is applied. */
  function Home(p: Pointer): (h: nat)
    ensures 16 * h <= p < 16 * h + 16
  {
    p / 16
  }

  // ---------------------------------------------------------------- tables

  ghost function Items(a: seq<Slot<Pointer>>): set<Pointer> {
    set b: nat | b < |a| && a[b].Full? :: a[b].item
  }

  predicate Distinct(a: seq<Slot<Pointer>>) {
    forall b: nat, c: nat :: b < |a| && c < |a| && a[b].Full? && a[b] == a[c] ==> b == c
  }

  /** Every item is where a search for it looks. */
  ghost predicate Hashed(a: seq<Slot<Pointer>>)
    requires |a| > 0
  {
    forall b: nat :: b < |a| && a[b].Full? ==> Placed(a, Home(a[b].item), b)
  }

  /** `a` is a hash table for `S` with `t` tombstones. */
  ghost predicate Holds(a: seq<Slot<Pointer>>, S: set<Pointer>, t: nat) {
    && PowerOfTwo(|a|) && |a| > 0 && Hashed(a) && Distinct(a) && Items(a) == S
    && Count(a, IsFull) == |S| && Count(a, IsTombstone) == t
  }

  /** Filling or burying a bucket hides nothing. */
  lemma HashedKept(a: seq<Slot<Pointer>>, b: nat, s: Slot<Pointer>)
    requires |a| > 0 && Hashed(a) && b < |a| && !s.Empty? && (s.Full? ==> Placed(a, Home(s.item), b))
    ensures Hashed(a[b := s])
  {
    var a' := a[b := s];
    forall c: nat | c < |a'| && a'[c].Full? ensures Placed(a', Home(a'[c].item), c) {
      PlacedKept(a, b, s, Home(a'[c].item), c);
    }
  }

  lemma DistinctKept(a: seq<Slot<Pointer>>, b: nat, p: Pointer)
    requires Distinct(a) && b < |a| && p !in Items(a)
    ensures Distinct(a[b := Full(p)])
  {
    assert forall c: nat :: c < |a| && a[c].Full? ==> a[c].item in Items(a);
  }

  lemma PutHolds(a: seq<Slot<Pointer>>, S: set<Pointer>, t: nat, b: nat, p: Pointer)
    requires Holds(a, S, t) && p !in S && b < |a| && !a[b].Full? && Placed(a, Home(p), b)
    ensures a[b].Tombstone? ==> t > 0
    ensures Holds(a[b := Full(p)], S + {p}, if a[b].Tombstone? then t - 1 else t)
  {
    CountUpdate(a, b, Full(p), IsFull);
    CountUpdate(a, b, Full(p), IsTombstone);
    HashedKept(a, b, Full(p));
    DistinctKept(a, b, p);
    PutItems(a, b, p);
  }

  lemma PutItems(a: seq<Slot<Pointer>>, b: nat, p: Pointer)
    requires b < |a| && !a[b].Full?
    ensures Items(a[b := Full(p)]) == Items(a) + {p}
  {
    var a' := a[b := Full(p)];
    forall x | x in Items(a) ensures x in Items(a') {
      var c: nat :| c < |a| && a[c].Full? && a[c].item == x;
      assert a'[c] == a[c];
    }
    assert a'[b].item in Items(a');
  }

  lemma BuryHolds(a: seq<Slot<Pointer>>, S: set<Pointer>, t: nat, b: nat)
    requires Holds(a, S, t) && b < |a| && a[b].Full?
    ensures a[b].item in S && Holds(a[b := Tombstone], S - {a[b].item}, t + 1)
  {
    var a', p := a[b := Tombstone], a[b].item;
    CountUpdate(a, b, Tombstone, IsFull);
    CountUpdate(a, b, Tombstone, IsTombstone);
    HashedKept(a, b, Tombstone);
    forall x | x in Items(a) && x != p ensures x in Items(a') {
      var c: nat :| c < |a| && a[c].Full? && a[c].item == x;
      assert a'[c] == a[c];
    }
  }

  lemma EmptyHolds(a: seq<Slot<Pointer>>)
    requires PowerOfTwo(|a|) && forall i :: 0 <= i < |a| ==> a[i].Empty?
    ensures Holds(a, {}, 0) && Listed(a, {}, 0)
  {
    var m: nat :| |a| == Pow2(m);
    CountAllEmpty(a);
  }

  lemma HasRoom(a: seq<Slot<Pointer>>, S: set<Pointer>, t: nat)
    requires Holds(a, S, t) && |S| + t < |a|
    ensures exists b :: 0 <= b < |a| && a[b].Empty?
  {
    RoomLeft(a);
  }

  // ---------------------------------------------------------------- where a search ends

  /** A search for `p` has passed `k` buckets, none empty and none holding it. */
  predicate Passed(a: seq<Slot<Pointer>>, p: Pointer, k: nat)
    requires |a| > 0
  {
    PathClear(a, Home(p), k) && forall j: nat :: j < k ==> a[Probe(Home(p), j, |a|)] != Full(p)
  }

  ghost predicate EndsAfter(a: seq<Slot<Pointer>>, p: Pointer, k: nat, b: nat)
    requires |a| > 0
  {
    Passed(a, p, k) && a[Probe(Home(p), k, |a|)].Empty? && FirstFree(a, Home(p), k, b)
  }

  /** A search for an absent pointer ends at an empty bucket and answers `b`: the first tombstone on
      the way, or else that empty bucket. */
  ghost predicate Answer(a: seq<Slot<Pointer>>, p: Pointer, b: nat)
    requires |a| > 0
  {
    exists k: nat :: EndsAfter(a, p, k, b)
  }

  lemma AnswerFits(a: seq<Slot<Pointer>>, p: Pointer, b: nat)
    requires |a| > 0 && Answer(a, p, b)
    ensures b < |a| && !a[b].Full? && Placed(a, Home(p), b)
    ensures Hashed(a) ==> p !in Items(a)
  {
    var k: nat :| EndsAfter(a, p, k, b);
    NotThere(a, p, k);
    var j: nat :| NoTombstone(a, Home(p), j) && j <= k && b == Probe(Home(p), j, |a|) && (j < k ==> a[b].Tombstone?);
    assert PathClear(a, Home(p), j);
  }

  // ---------------------------------------------------------------- the small array

  /** The first `n` elements are the set, in any order, each once. */
  ghost predicate Listed(a: seq<Slot<Pointer>>, S: set<Pointer>, n: nat) {
    && n <= |a| && Distinct(a)
    && (forall i :: 0 <= i < n ==> a[i].Full?) && (forall i :: n <= i < |a| ==> a[i].Empty?)
    && Items(a) == S && |S| == n
  }

  lemma PushListed(a: seq<Slot<Pointer>>, S: set<Pointer>, n: nat, p: Pointer)
    requires Listed(a, S, n) && n < |a| && p !in S
    ensures Listed(a[n := Full(p)], S + {p}, n + 1)
  {
    PutItems(a, n, p);
    assert forall c: nat :: c < |a| && a[c].Full? ==> a[c].item in Items(a);
  }

  /** The last element moves into the gap. */
  lemma DropListed(a: seq<Slot<Pointer>>, S: set<Pointer>, n: nat, i: nat)
    requires Listed(a, S, n) && i < n
    ensures a[i].item in S && Listed(a[i := a[n - 1]][n - 1 := Empty], S - {a[i].item}, n - 1)
  {
    var a' := a[i := a[n - 1]][n - 1 := Empty];
    forall x | x in Items(a) && x != a[i].item ensures x in Items(a') {
      var c: nat :| c < |a| && a[c].Full? && a[c].item == x;
      assert a'[if c == n - 1 then i else c] == a[c];
    }
    forall x | x in Items(a') ensures x in Items(a) && x != a[i].item {
      var c: nat :| c < |a'| && a'[c].Full? && a'[c].item == x;
      assert a[if c == i then n - 1 else c] == a'[c];
    }
  }

  // ---------------------------------------------------------------- the set

  class SmallPtrSet {
    const smallArray: array<Slot<Pointer>>
    var curArray: array<Slot<Pointer>>
    var numElements: nat
    var numTombstones: nat
    ghost var contents: set<Pointer>

    predicate IsSmall()
      reads this
    {
      curArray == smallArray
    }

    ghost predicate Valid()
      reads this, curArray
    {
      && PowerOfTwo(curArray.Length) && numElements == |contents|
      && if IsSmall() then numTombstones == 0 && Listed(curArray[..], contents, numElements)
         else curArray.Length >= 32 && Holds(curArray[..], contents, numTombstones) &&
              numElements + numTombstones < curArray.Length
    }

    constructor (size: nat)
      requires PowerOfTwo(size)
      ensures Valid() && IsSmall() && contents == {} && fresh(curArray)
    {
      var storage := new Slot<Pointer>[size](_ => Empty);
      smallArray := storage;
      curArray := storage;
      numElements, numTombstones := 0, 0;
      contents := {};
      new;
      assert Items(curArray[..]) == {};
    }

    /** The bucket that holds `p`, or else the first tombstone on its path, or else the empty bucket
        that ends it. */
    method FindBucketFor(p: Pointer) returns (bucket: nat)
      requires PowerOfTwo(curArray.Length) && exists b :: 0 <= b < curArray.Length && curArray[b].Empty?
      ensures bucket < curArray.Length
      ensures curArray[bucket] == Full(p) || Answer(curArray[..], p, bucket)
      ensures curArray[bucket] == Full(p) || (!curArray[bucket].Full? && Placed(curArray[..], Home(p), bucket))
      ensures curArray[bucket] != Full(p) && Hashed(curArray[..]) ==> p !in Items(curArray[..])
    {
      ghost var a, h := curArray[..], Home(p);
      var n := curArray.Length;
      bucket := Home(p) % n;
      var probeAmt := 1;
      var tombstone := -1;
      ghost var k, first := 0, 0;
      ProbeStep(h, 0, n);
      while true
        invariant bucket == Probe(h, k, n) && probeAmt == k + 1 && Passed(a, p, k)
        invariant NoTombstone(a, h, first)
        invariant if tombstone == -1 then first == k
                  else first < k && tombstone == Probe(h, first, n) && a[tombstone].Tombstone?
        decreases n - k
      {
        SearchEnds(a, h, k);
        if curArray[bucket] == Full(p) {
          return;
        }
        if curArray[bucket] == Empty {
          assert EndsAfter(a, p, k, Probe(h, first, n));
          AnswerFits(a, p, Probe(h, first, n));
          if tombstone != -1 {
            bucket := tombstone;
          }
          return;
        }
        if curArray[bucket] == Tombstone && tombstone == -1 {
          tombstone := bucket;
        }
        ProbeStep(h, k, n);
        bucket := Advance(bucket, probeAmt, n);
        probeAmt := probeAmt + 1;
        k := k + 1;
        first := if tombstone == -1 then k else first;
      }
    }

    /** Moves the item of one old bucket into the new table. */
    method Rehome(ghost a: seq<Slot<Pointer>>, i: nat, s: Slot<Pointer>)
      requires i < |a| && a[i] == s && Distinct(a) && |Items(a)| < curArray.Length
      requires Holds(curArray[..], Items(a[..i]), 0)
      modifies curArray
      ensures Holds(curArray[..], Items(a[..i + 1]), 0)
    {
      ItemsUpto(a, i);
      if !s.Tombstone? && !s.Empty? {
        ghost var before := curArray[..];
        SubsetCard(Items(a[..i]), Items(a));
        HasRoom(before, Items(a[..i]), 0);
        var bucket := FindBucketFor(s.item);
        assert forall b: nat :: b < |before| && before[b].Full? ==> before[b].item in Items(before);
        PutHolds(before, Items(a[..i]), 0, bucket, s.item);
        curArray[bucket] := s;
        assert curArray[..] == before[bucket := s];
      }
    }

    /** Moves all items into a table of `newSize` empty buckets. */
    method Grow(newSize: nat)
      requires Valid() && PowerOfTwo(newSize) && newSize >= 32 && numElements < newSize
      modifies this
      ensures Valid() && fresh(curArray) && !IsSmall() && curArray.Length == newSize
      ensures contents == old(contents) && numElements == old(numElements) && numTombstones == 0
    {
      var oldBuckets := curArray;
      var e := if IsSmall() then numElements else oldBuckets.Length;
      ghost var a := oldBuckets[..];
      AllItems(a, e);
      curArray := new Slot<Pointer>[newSize](_ => Empty);
      EmptyHolds(curArray[..]);
      assert Items(a[..0]) == {};
      var i := 0;
      while i < e
        invariant 0 <= i <= e && fresh(curArray) && curArray.Length == newSize && oldBuckets[..] == a
        invariant contents == old(contents) && numElements == old(numElements)
        invariant Holds(curArray[..], Items(a[..i]), 0)
      {
        Rehome(a, i, oldBuckets[i]);
        i := i + 1;
      }
      numTombstones := 0;
    }

    /** Whether the first `numElements` places of the small array hold `p`, and where. */
    method ScanSmall(p: Pointer) returns (i: nat)
      requires Valid() && IsSmall()
      ensures i <= numElements && (i < numElements <==> p in contents) && (i < numElements ==> curArray[i] == Full(p))
    {
      i := 0;
      while i < numElements && curArray[i] != Full(p)
        invariant i <= numElements
        invariant forall j :: 0 <= j < i ==> curArray[j] != Full(p)
      {
        i := i + 1;
      }
      ScanEnds(curArray[..], p, i);
    }

    /** Finds a bucket for `p` and fills it unless `p` is there. */
    method Place(p: Pointer) returns (isNew: bool)
      requires Valid()
      requires if IsSmall() then numElements + 1 == curArray.Length && p !in contents
               else numElements + numTombstones + 1 < curArray.Length
      modifies this, curArray
      ensures Valid() && curArray == old(curArray)
      ensures contents == old(contents) + {p} && isNew == (p !in old(contents))
      ensures !isNew ==> curArray[..] == old(curArray[..]) && numTombstones == old(numTombstones)
      ensures isNew ==> exists b: nat :: b < curArray.Length && Answer(old(curArray[..]), p, b) &&
                                         curArray[..] == old(curArray[..])[b := Full(p)]
    {
      ghost var a := curArray[..];
      if IsSmall() {
        assert a[numElements].Empty?;
      } else {
        HasRoom(a, contents, numTombstones);
      }
      var bucket := FindBucketFor(p);
      assert a[bucket] == Full(p) ==> a[bucket].item in Items(a);
      if curArray[bucket] == Full(p) {
        return false;
      }
      if IsSmall() {
        PushListed(a, contents, numElements, p);
      } else {
        PutHolds(a, contents, numTombstones, bucket, p);
      }
      if curArray[bucket] == Tombstone {
        numTombstones := numTombstones - 1;
      }
      curArray[bucket] := Full(p);
      assert curArray[..] == a[bucket := Full(p)];
      numElements := numElements + 1;
      contents := contents + {p};
      return true;
    }

    /** The set is small and `p` is in it or fits into it. */
    ghost predicate Stays(p: Pointer)
      reads this
    {
      IsSmall() && (p in contents || numElements + 1 < curArray.Length)
    }

    /** Adds `p`; the result says whether it was new. A table of which three quarters are full, or
        less than one eighth is empty, is replaced first. */
    method Insert(p: Pointer) returns (isNew: bool)
      requires Valid()
      modifies this, curArray
      ensures Valid() && (curArray == old(curArray) || fresh(curArray))
      ensures contents == old(contents) + {p} && isNew == (p !in old(contents))
      ensures curArray.Length == old(if Stays(p) || numElements * 4 < curArray.Length * 3 then curArray.Length
                                     else if curArray.Length < 64 then 128 else curArray.Length * 2)
      ensures curArray == old(curArray) <==>
              old(Stays(p) || (numElements * 4 < curArray.Length * 3 &&
                               curArray.Length - (numElements + numTombstones) >= curArray.Length / 8))
    {
      if IsSmall() {
        var i := ScanSmall(p);
        if i < numElements {
          return false;
        }
        if numElements + 1 < curArray.Length {
          ghost var a := curArray[..];
          PushListed(a, contents, numElements, p);
          curArray[numElements] := Full(p);
          assert curArray[..] == a[numElements := Full(p)];
          numElements := numElements + 1;
          contents := contents + {p};
          return true;
        }
      }
      MakeRoom();
      isNew := Place(p);
    }

    /** Replaces a table of which three quarters are full, or less than one eighth is empty. */
    method MakeRoom()
      requires Valid() && (IsSmall() ==> numElements + 1 >= curArray.Length)
      modifies this
      ensures Valid() && (curArray == old(curArray) || fresh(curArray)) && contents == old(contents)
      ensures if IsSmall() then numElements + 1 == curArray.Length else numElements + numTombstones + 1 < curArray.Length
      ensures curArray.Length == old(if numElements * 4 < curArray.Length * 3 then curArray.Length
                                     else if curArray.Length < 64 then 128 else curArray.Length * 2)
      ensures curArray == old(curArray) <==>
              old(numElements * 4 < curArray.Length * 3 &&
                  curArray.Length - (numElements + numTombstones) >= curArray.Length / 8)
    {
      var size := curArray.Length;
      if numElements * 4 >= size * 3 {
        PowerDoubles(size);
        assert Pow2(7) == 128;
        Grow(if size < 64 then 128 else size * 2);
      } else if size - (numElements + numTombstones) < size / 8 {
        Grow(size);
      }
    }

    method EraseSmall(p: Pointer) returns (wasThere: bool)
      requires Valid() && IsSmall()
      modifies this, curArray
      ensures Valid() && curArray == old(curArray)
      ensures contents == old(contents) - {p} && wasThere == (p in old(contents))
    {
      ghost var a := curArray[..];
      var i := ScanSmall(p);
      if i == numElements {
        return false;
      }
      DropListed(a, contents, numElements, i);
      curArray[i] := curArray[numElements - 1];
      curArray[numElements - 1] := Empty;
      assert curArray[..] == a[i := a[numElements - 1]][numElements - 1 := Empty];
      numElements := numElements - 1;
      contents := contents - {p};
      return true;
    }

    /** Removes `p`; the result says whether it was there. */
    method Erase(p: Pointer) returns (wasThere: bool)
      requires Valid()
      modifies this, curArray
      ensures Valid() && curArray == old(curArray)
      ensures contents == old(contents) - {p} && wasThere == (p in old(contents))
    {
      if IsSmall() {
        wasThere := EraseSmall(p);
        return;
      }
      ghost var a := curArray[..];
      HasRoom(a, contents, numTombstones);
      var bucket := FindBucketFor(p);
      if curArray[bucket] != Full(p) {
        return false;
      }
      BuryHolds(a, contents, numTombstones, bucket);
      curArray[bucket] := Tombstone;
      assert curArray[..] == a[bucket := Tombstone];
      numElements := numElements - 1;
      numTombstones := numTombstones + 1;
      contents := contents - {p};
      return true;
    }

    method Contains(p: Pointer) returns (r: bool)
      requires Valid()
      ensures r == (p in contents)
    {
      if IsSmall() {
        var i := ScanSmall(p);
        return i < numElements;
      }
      HasRoom(curArray[..], contents, numTombstones);
      var bucket := FindBucketFor(p);
      assert curArray[bucket].Full? ==> curArray[..][bucket].item in Items(curArray[..]);
      return curArray[bucket] == Full(p);
    }

    /** Empties the set, giving back most of a table that is less than a quarter full. */
    method Clear()
      requires Valid()
      modifies this, curArray
      ensures Valid() && contents == {} && numTombstones == 0 && (curArray == old(curArray) || fresh(curArray))
      ensures curArray == old(curArray) <==>
              old(IsSmall() || numElements * 4 >= curArray.Length || curArray.Length <= 32)
    {
      if !IsSmall() && numElements * 4 < curArray.Length && curArray.Length > 32 {
        ShrinkAndClear();
        return;
      }
      forall i | 0 <= i < curArray.Length {
        curArray[i] := Empty;
      }
      numElements, numTombstones := 0, 0;
      contents := {};
      EmptyHolds(curArray[..]);
    }

    /** A new empty table, between two and four times the number of elements, or 32. */
    method ShrinkAndClear()
      requires Valid() && !IsSmall()
      modifies this
      ensures Valid() && contents == {} && numTombstones == 0 && fresh(curArray) && !IsSmall()
      ensures if old(numElements) > 16 then 2 * old(numElements) <= curArray.Length < 4 * old(numElements)
              else curArray.Length == 32
    {
      var size := if numElements > 16 then Pow2(Log2Ceil(numElements) + 1) else 32;
      ShrinkSize(numElements);
      curArray := new Slot<Pointer>[size](_ => Empty);
      numElements, numTombstones := 0, 0;
      contents := {};
      EmptyHolds(curArray[..]);
    }
  }

  /** The least exponent whose power of two reaches `n`. */
  function Log2Ceil(n: nat): nat {
    if n <= 1 then 0 else 1 + Log2Ceil((n + 1) / 2)
  }

  lemma {:induction false} Log2CeilBounds(n: nat)
    requires n > 1
    ensures n <= Pow2(Log2Ceil(n)) < 2 * n
  {
    if n > 2 {
      var h := (n + 1) / 2;
      Log2CeilBounds(h);
      HalfCeil(n, h, Pow2(Log2Ceil(h)), Pow2(Log2Ceil(h) - 1));
    }
  }

  lemma HalfCeil(n: nat, h: nat, p: nat, q: nat)
    requires h == (n + 1) / 2 && h <= p < 2 * h && p == 2 * q
    ensures n <= 2 * p < 2 * n
  {
  }

  lemma ShrinkSize(n: nat)
    ensures PowerOfTwo(if n > 16 then Pow2(Log2Ceil(n) + 1) else 32)
    ensures n > 16 ==> 2 * n <= Pow2(Log2Ceil(n) + 1) < 4 * n
    ensures n > 16 ==> Pow2(Log2Ceil(n) + 1) >= 32
  {
    if n > 16 {
      Log2CeilBounds(n);
      assert Pow2(Log2Ceil(n) + 1) == 2 * Pow2(Log2Ceil(n));
    } else {
      assert Pow2(5) == 32;
    }
  }

  lemma AllItems(a: seq<Slot<Pointer>>, e: nat)
    requires e <= |a| && forall i :: e <= i < |a| ==> !a[i].Full?
    ensures Items(a[..e]) == Items(a)
  {
    forall x | x in Items(a) ensures x in Items(a[..e]) {
      var c: nat :| c < |a| && a[c].Full? && a[c].item == x;
      assert a[..e][c] == a[c];
    }
    forall x | x in Items(a[..e]) ensures x in Items(a) {
      var c: nat :| c < e && a[..e][c].Full? && a[..e][c].item == x;
      assert a[c] == a[..e][c];
    }
  }

  lemma ItemsUpto(a: seq<Slot<Pointer>>, i: nat)
    requires i < |a| && Distinct(a)
    ensures Items(a[..i + 1]) == Items(a[..i]) + if a[i].Full? then {a[i].item} else {}
    ensures a[i].Full? ==> a[i].item !in Items(a[..i])
    ensures Items(a[..i]) <= Items(a)
    ensures a[i].Full? ==> Items(a[..i]) < Items(a)
  {
    var u, v := a[..i], a[..i + 1];
    forall x | x in Items(u) ensures x in Items(v) && x in Items(a) {
      var c: nat :| c < |u| && u[c].Full? && u[c].item == x;
      assert v[c] == u[c] && a[c] == u[c];
    }
    if a[i].Full? {
      assert v[i].item in Items(v) && a[i].item in Items(a);
    }
  }

  lemma ScanEnds(a: seq<Slot<Pointer>>, p: Pointer, i: nat)
    requires i <= |a| && (forall j :: 0 <= j < i ==> a[j] != Full(p))
    requires a[i..] == [] || a[i] == Full(p) || forall j :: i <= j < |a| ==> a[j].Empty?
    ensures p in Items(a) <==> i < |a| && a[i] == Full(p)
  {
    if i < |a| && a[i] == Full(p) {
      assert a[i].item in Items(a);
    }
  }

  lemma NotThere(a: seq<Slot<Pointer>>, p: Pointer, k: nat)
    requires |a| > 0 && a[Probe(Home(p), k, |a|)].Empty? && PathClear(a, Home(p), k)
    requires forall j: nat :: j < k ==> a[Probe(Home(p), j, |a|)] != Full(p)
    ensures Placed(a, Home(p), Probe(Home(p), k, |a|))
    ensures Hashed(a) ==> p !in Items(a)
  {
    if Hashed(a) && p in Items(a) {
      var b: nat :| b < |a| && a[b].Full? && a[b].item == p;
      NotBeyondEmpty(a, Home(p), k, b);
    }
  }
}
