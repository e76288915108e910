/** The open-addressing page index of fs/page_cache.c: linear probing, tombstones, and a rehash that may
    keep its capacity. The class refines a map from (node, page index) to the cached entry. */
module PageIndex {
  import opened Arithmetic

  const SIZE_MAX: nat := 0xFFFF_FFFF_FFFF_FFFF
  const INITIAL_CAPACITY: nat := 16

  datatype Key = Key(node: bv64, page: bv64)
  datatype Bucket = Empty | Tombstone | Full(key: Key, entry: nat)

  function MixKey(k: Key): bv64 {
    var v0 := k.node;
    var v1 := v0 ^ (k.page + 0x9e3779b97f4a7c15 + (v0 << 6) + (v0 >> 2));
    var v2 := (v1 ^ (v1 >> 30)) * 0xbf58476d1ce4e5b9;
    var v3 := (v2 ^ (v2 >> 27)) * 0x94d049bb133111eb;
    v3 ^ (v3 >> 31)
  }

  /** The first probed bucket; capacities are powers of two, so masking is the remainder. */
  function Home(k: Key, capacity: nat): (h: nat)
    requires capacity > 0
    ensures h < capacity
  {
    MixKey(k) as nat % capacity
  }

  // ---------------------------------------------------------------- counting

  function Weight(x: Bucket, tombs: bool): nat {
    if tombs then (if x.Tombstone? then 1 else 0) else (if x.Empty? then 0 else 1)
  }

  /** The number of tombstones, or of buckets that are not empty. */
  function Count(b: seq<Bucket>, tombs: bool): nat {
    if b == [] then 0 else Count(b[..|b| - 1], tombs) + Weight(b[|b| - 1], tombs)
  }

  lemma {:induction false} CountUpdate(b: seq<Bucket>, i: nat, x: Bucket, tombs: bool)
    requires i < |b|
    ensures Count(b[i := x], tombs) == Count(b, tombs) - Weight(b[i], tombs) + Weight(x, tombs)
  {
    var n, c := |b| - 1, b[i := x];
    if i == n {
      assert c[..n] == b[..n];
    } else {
      assert c[..n] == b[..n][i := x];
      CountUpdate(b[..n], i, x, tombs);
    }
  }

  lemma {:induction false} SomeEmpty(b: seq<Bucket>)
    requires Count(b, false) < |b|
    ensures exists i :: 0 <= i < |b| && b[i].Empty?
  {
    var n := |b| - 1;
    if b[n].Empty? {
    } else {
      SomeEmpty(b[..n]);
      var i :| 0 <= i < n && b[..n][i].Empty?;
      assert b[i].Empty?;
    }
  }

  lemma {:induction false} AllEmpty(b: seq<Bucket>, tombs: bool)
    requires forall i :: 0 <= i < |b| ==> b[i].Empty?
    ensures Count(b, tombs) == 0
  {
    if b != [] {
      AllEmpty(b[..|b| - 1], tombs);
    }
  }

  // ---------------------------------------------------------------- probing

  /** Probing for k reaches bucket i without meeting an empty bucket before it. */
  ghost predicate Reached(b: seq<Bucket>, k: Key, i: nat)
    requires |b| > 0
  {
    exists u: nat :: u < |b| && Ahead(Home(k, |b|), u, |b|) == i && PathFull(b, k, u)
  }

  ghost predicate PathFull(b: seq<Bucket>, k: Key, u: nat)
    requires |b| > 0
  {
    forall v: nat :: v < u ==> !b[Ahead(Home(k, |b|), v, |b|)].Empty?
  }

  /** The buckets hold exactly the map m. */
  ghost predicate Holds(b: seq<Bucket>, m: map<Key, nat>) {
    && |b| > 0
    && (forall i :: 0 <= i < |b| && b[i].Full? ==> b[i].key in m && m[b[i].key] == b[i].entry)
    && (forall i :: 0 <= i < |b| && b[i].Full? ==> Reached(b, b[i].key, i))
    && (forall i, j :: 0 <= i < |b| && 0 <= j < |b| && b[i].Full? && b[j].Full? && b[i].key == b[j].key ==> i == j)
    && (forall k :: k in m ==> exists i :: 0 <= i < |b| && b[i] == Full(k, m[k]))
  }

  /** Every bucket lies on every probe path. */
  lemma StepTo(home: nat, i: nat, capacity: nat) returns (u: nat)
    requires home < capacity && i < capacity
    ensures u < capacity && Ahead(home, u, capacity) == i
  {
    u := if i >= home then i - home else i + capacity - home;
    if i < home {
      assert home + u == i + capacity;
    }
  }

  /** Filling a bucket that probing for k reaches adds k to the map. */
  lemma FillHolds(b: seq<Bucket>, m: map<Key, nat>, k: Key, e: nat, i: nat)
    requires Holds(b, m) && k !in m && i < |b| && !b[i].Full? && Reached(b, k, i)
    ensures Holds(b[i := Full(k, e)], m[k := e])
  {
    hide Home, Reached;
    var c, n := b[i := Full(k, e)], m[k := e];
    forall j, q | 0 <= j < |b| && Reached(b, q, j) ensures Reached(c, q, j) {
      ReachedUpdate(b, q, j, i, Full(k, e));
    }
    forall q | q in n ensures exists j :: 0 <= j < |c| && c[j] == Full(q, n[q]) {
      if q == k {
        assert c[i] == Full(q, n[q]);
      } else {
        var j :| 0 <= j < |b| && b[j] == Full(q, m[q]);
        assert c[j] == b[j];
      }
    }
  }

  lemma ReachedUpdate(b: seq<Bucket>, q: Key, j: nat, i: nat, x: Bucket)
    requires |b| > 0 && i < |b| && !x.Empty? && Reached(b, q, j)
    ensures Reached(b[i := x], q, j)
  {
    var u: nat :| u < |b| && Ahead(Home(q, |b|), u, |b|) == j && PathFull(b, q, u);
    assert PathFull(b[i := x], q, u);
  }

  /** Turning a key's bucket into a tombstone removes the key and nothing else. */
  lemma TombHolds(b: seq<Bucket>, m: map<Key, nat>, i: nat)
    requires Holds(b, m) && i < |b| && b[i].Full?
    ensures Holds(b[i := Tombstone], m - {b[i].key})
  {
    hide Home, Reached;
    var c, n := b[i := Tombstone], m - {b[i].key};
    forall j, q | 0 <= j < |b| && Reached(b, q, j) ensures Reached(c, q, j) {
      ReachedUpdate(b, q, j, i, Tombstone);
    }
    forall q | q in n ensures exists j :: 0 <= j < |c| && c[j] == Full(q, n[q]) {
      var j :| 0 <= j < |b| && b[j] == Full(q, m[q]);
      assert c[j] == b[j];
    }
  }

  /** A key whose probe path ends in an empty bucket without meeting it is absent. */
  lemma Absent(b: seq<Bucket>, m: map<Key, nat>, k: Key, t: nat)
    requires Holds(b, m) && t < |b| && b[Ahead(Home(k, |b|), t, |b|)].Empty?
    requires forall v: nat ::
              v < t ==> !(b[Ahead(Home(k, |b|), v, |b|)].Full? && b[Ahead(Home(k, |b|), v, |b|)].key == k)
    ensures k !in m
  {
    hide Home, Ahead;
  }

  /** `find_bucket`: always ends, finds the key exactly when it is present, and otherwise yields a bucket
      that may take it. */
  method FindBucket(b: array<Bucket>, k: Key, ghost m: map<Key, nat>) returns (found: bool, index: nat)
    requires Holds(b[..], m) && Count(b[..], false) < b.Length
    ensures found <==> k in m
    ensures index < b.Length
    ensures found ==> b[index] == Full(k, m[k])
    ensures !found ==> !b[index].Full? && Reached(b[..], k, index)
  {
    hide MixKey, Home, Ahead, Count, PathFull, Holds, Reached;
    ghost var s, home, n := b[..], Home(k, b.Length), b.Length;
    SomeEmpty(s);
    ghost var e :| 0 <= e < n && s[e].Empty?;
    ghost var stop := StepTo(home, e, n);
    index := Home(k, b.Length);
    var tomb: int := -1;
    ghost var t, tt: nat := 0, 0;
    PathStart(s, k);
    AheadIs(home, 0, n, home);
    while true
      invariant t <= stop < n && index == Ahead(home, t, n)
      invariant s == b[..]
      invariant PathFull(s, k, t)
      invariant forall v: nat :: v < t ==> !(s[Ahead(home, v, n)].Full? && s[Ahead(home, v, n)].key == k)
      invariant tomb >= 0 ==> tt < n && tomb == Ahead(home, tt, n) && s[tomb].Tombstone? && PathFull(s, k, tt)
      decreases stop - t
    {
      var entry := b[index];
      assert entry == s[index];
      if entry.Empty? {
        Absent(s, m, k, t);
        found := false;
        if tomb >= 0 {
          index := tomb;
          Reaches(s, k, tt);
        } else {
          Reaches(s, k, t);
        }
        return;
      }
      if entry.Tombstone? {
        if tomb < 0 {
          tomb, tt := index, t;
        }
      } else if entry.key == k {
        found := true;
        HeldKey(s, m, index);
        return;
      }
      AheadTwice(home, t, 1, n);
      PathNext(s, k, t);
      index, t := Ahead(index, 1, b.Length), t + 1;
    }
  }

  lemma PathStart(b: seq<Bucket>, k: Key)
    requires |b| > 0
    ensures PathFull(b, k, 0)
  {}

  lemma PathNext(b: seq<Bucket>, k: Key, t: nat)
    requires |b| > 0 && PathFull(b, k, t) && !b[Ahead(Home(k, |b|), t, |b|)].Empty?
    ensures PathFull(b, k, t + 1)
  {}

  lemma Reaches(b: seq<Bucket>, k: Key, u: nat)
    requires 0 <= u < |b| && PathFull(b, k, u)
    ensures Reached(b, k, Ahead(Home(k, |b|), u, |b|))
  {}

  lemma HeldKey(b: seq<Bucket>, m: map<Key, nat>, i: nat)
    requires Holds(b, m) && i < |b| && b[i].Full?
    ensures b[i].key in m && m[b[i].key] == b[i].entry
  {}

  // ---------------------------------------------------------------- the record

  /** The largest number of buckets in use, live or tombstone. */
  function Limit(capacity: nat): nat { capacity - capacity / 4 }

  /** Doubling from capacity reaches r, and every smaller doubling has too little room. */
  predicate Doubled(capacity: nat, needed: nat, r: nat)
    decreases r - capacity
  {
    r == capacity || (r > capacity > 0 && needed > Limit(capacity) && Doubled(2 * capacity, needed, r))
  }

  lemma {:induction false} DoubledNext(capacity: nat, needed: nat, r: nat)
    requires capacity > 0 && Doubled(capacity, needed, r) && needed > Limit(r)
    ensures Doubled(capacity, needed, 2 * r) && r > 0
    decreases r - capacity
  {
    if r != capacity {
      DoubledNext(2 * capacity, needed, r);
    }
  }

  /** The first doubling of capacity with room for needed entries, as far as a size can hold it. */
  predicate FirstFit(capacity: nat, needed: nat, r: nat) {
    Doubled(capacity, needed, r) && needed <= Limit(r) && r <= SIZE_MAX
  }

  ghost predicate NoFit(capacity: nat, needed: nat) {
    forall t: nat :: !FirstFit(capacity, needed, t)
  }

  lemma {:induction false} DoubledBelow(capacity: nat, needed: nat, r: nat, t: nat)
    requires capacity > 0 && Doubled(capacity, needed, r) && Doubled(capacity, needed, t) && r < t
    ensures needed > Limit(r) && 2 * r <= t
    decreases r - capacity
  {
    if r > capacity {
      DoubledBelow(2 * capacity, needed, r, t);
    }
  }

  lemma FirstFitRoom(capacity: nat, needed: nat, r: nat)
    ensures FirstFit(capacity, needed, r) ==> needed <= Limit(r) && r <= SIZE_MAX
  {}

  lemma FirstFitIsOne(capacity: nat, needed: nat, r: nat, t: nat)
    requires capacity > 0 && FirstFit(capacity, needed, r) && FirstFit(capacity, needed, t)
    ensures r == t
  {
    if r < t {
      DoubledBelow(capacity, needed, r, t);
    } else if t < r {
      DoubledBelow(capacity, needed, t, r);
    }
  }

  lemma TooMany(capacity: nat, needed: nat)
    requires needed > SIZE_MAX
    ensures NoFit(capacity, needed)
  {}

  lemma DoubledNone(capacity: nat, needed: nat)
    ensures Doubled(capacity, needed, capacity)
  {}

  lemma TopTooSmall(capacity: nat, needed: nat, top: nat)
    requires capacity > 0 && SIZE_MAX / 2 < top <= SIZE_MAX && Doubled(capacity, needed, top) && needed > Limit(top)
    ensures NoFit(capacity, needed)
  {
    forall t: nat ensures !FirstFit(capacity, needed, t) {
      if FirstFit(capacity, needed, t) && t < top {
        DoubledBelow(capacity, needed, t, top);
      } else if FirstFit(capacity, needed, t) && top < t {
        DoubledBelow(capacity, needed, top, t);
      }
    }
  }

  lemma {:induction false} DoubledPower(capacity: nat, needed: nat, r: nat)
    requires capacity > 0 && PowerOfTwo(capacity) && Doubled(capacity, needed, r)
    ensures PowerOfTwo(r) && r >= capacity
    decreases r - capacity
  {
    if r != capacity {
      assert 2 * capacity / 2 == capacity;
      DoubledPower(2 * capacity, needed, r);
    }
  }

  ghost predicate IndexOk(b: seq<Bucket>, m: map<Key, nat>, occupied: nat, tombstones: nat) {
    && Holds(b, m) && occupied == |m| && tombstones == Count(b, true)
    && Count(b, false) == occupied + tombstones && occupied + tombstones <= Limit(|b|)
    && INITIAL_CAPACITY <= |b| <= SIZE_MAX && PowerOfTwo(|b|)
  }

  lemma AddKey(b: seq<Bucket>, m: map<Key, nat>, occupied: nat, tombstones: nat, k: Key, e: nat, i: nat)
    requires IndexOk(b, m, occupied, tombstones) && k !in m && i < |b| && !b[i].Full? && Reached(b, k, i)
    requires b[i].Tombstone? || occupied + tombstones < Limit(|b|)
    ensures b[i].Tombstone? ==> tombstones > 0
    ensures IndexOk(b[i := Full(k, e)], m[k := e], occupied + 1, if b[i].Tombstone? then tombstones - 1 else tombstones)
  {
    hide Holds, Reached, PowerOfTwo, Count;
    FillHolds(b, m, k, e, i);
    CountUpdate(b, i, Full(k, e), true);
    CountUpdate(b, i, Full(k, e), false);
    assert m[k := e].Keys == m.Keys + {k};
  }

  lemma DropKey(b: seq<Bucket>, m: map<Key, nat>, occupied: nat, tombstones: nat, i: nat)
    requires IndexOk(b, m, occupied, tombstones) && i < |b| && b[i].Full?
    ensures occupied > 0
    ensures IndexOk(b[i := Tombstone], m - {b[i].key}, occupied - 1, tombstones + 1)
  {
    hide Holds, Reached, PowerOfTwo, Count, Limit;
    HeldKey(b, m, i);
    TombHolds(b, m, i);
    CountUpdate(b, i, Tombstone, true);
    CountUpdate(b, i, Tombstone, false);
    assert m.Keys == (m - {b[i].key}).Keys + {b[i].key};
  }

  /** The keys of the first i buckets. */
  ghost predicate Copied(b: seq<Bucket>, i: nat, m: map<Key, nat>, part: map<Key, nat>)
    requires i <= |b|
  {
    && part.Keys <= m.Keys && (forall k :: k in part ==> part[k] == m[k])
    && (forall j :: 0 <= j < i && b[j].Full? ==> b[j].key in part)
    && (forall k :: k in part ==> exists j :: 0 <= j < i && b[j].Full? && b[j].key == k)
  }

  lemma CopiedNext(b: seq<Bucket>, i: nat, m: map<Key, nat>, part: map<Key, nat>)
    requires Holds(b, m) && i < |b| && Copied(b, i, m, part)
    ensures !b[i].Full? ==> Copied(b, i + 1, m, part)
    ensures b[i].Full? ==> b[i].key !in part && Copied(b, i + 1, m, part[b[i].key := b[i].entry])
  {
    hide Reached;
    if b[i].Full? {
      var next := part[b[i].key := b[i].entry];
      forall k | k in next ensures exists j :: 0 <= j < i + 1 && b[j].Full? && b[j].key == k {
        if k != b[i].key {
          var j :| 0 <= j < i && b[j].Full? && b[j].key == k;
        } else {
          assert b[i].key == k;
        }
      }
    }
  }

  lemma CopiedAll(b: seq<Bucket>, m: map<Key, nat>, part: map<Key, nat>)
    requires Holds(b, m) && Copied(b, |b|, m, part)
    ensures part == m
  {
    hide Reached;
    forall k | k in m ensures k in part {
      var j :| 0 <= j < |b| && b[j] == Full(k, m[k]);
    }
  }

  lemma PartSize(m: map<Key, nat>, part: map<Key, nat>)
    requires part.Keys <= m.Keys
    ensures |part| <= |m|
  {
    SubsetSize(part.Keys, m.Keys);
  }

  lemma {:induction false} SubsetSize(a: set<Key>, b: set<Key>)
    requires a <= b
    ensures |a| <= |b|
  {
    if a != {} {
      var k :| k in a;
      SubsetSize(a - {k}, b - {k});
    }
  }

  lemma EmptyTable(b: seq<Bucket>)
    requires |b| > 0 && forall i :: 0 <= i < |b| ==> b[i].Empty?
    ensures Holds(b, map[]) && Count(b, false) == 0 && Count(b, true) == 0
  {
    AllEmpty(b, false);
    AllEmpty(b, true);
  }

  lemma CountFilled(b: seq<Bucket>, i: nat, x: Bucket)
    requires i < |b| && !b[i].Full? && x.Full? && Count(b, true) == 0
    ensures Count(b[i := x], false) == Count(b, false) + 1 && Count(b[i := x], true) == 0
  {
    hide Count;
    CountUpdate(b, i, x, false);
    CountUpdate(b, i, x, true);
  }

  lemma StartCopy(b: seq<Bucket>, m: map<Key, nat>)
    ensures Copied(b, 0, m, map[])
  {}

  lemma IndexParts(b: seq<Bucket>, m: map<Key, nat>, occupied: nat, tombstones: nat)
    requires IndexOk(b, m, occupied, tombstones)
    ensures Holds(b, m) && |m| == occupied
  {}

  lemma IndexSizes(b: seq<Bucket>, m: map<Key, nat>, occupied: nat, tombstones: nat)
    requires IndexOk(b, m, occupied, tombstones)
    ensures INITIAL_CAPACITY <= |b| <= SIZE_MAX && occupied <= Limit(|b|) && PowerOfTwo(|b|)
  {}

  lemma IndexMade(b: seq<Bucket>, m: map<Key, nat>, occupied: nat)
    requires Holds(b, m) && occupied == |m| && Count(b, true) == 0 && Count(b, false) == occupied <= Limit(|b|)
    requires INITIAL_CAPACITY <= |b| <= SIZE_MAX && PowerOfTwo(|b|)
    ensures IndexOk(b, m, occupied, 0)
  {}

  lemma LimitBelow(capacity: nat)
    requires capacity >= INITIAL_CAPACITY
    ensures Limit(capacity) < capacity
  {}

  class Record {
    var buckets: array<Bucket>
    var occupied: nat
    var tombstones: nat
    ghost var contents: map<Key, nat>

    ghost predicate Valid()
      reads this, buckets
    {
      IndexOk(buckets[..], contents, occupied, tombstones)
    }

    constructor ()
      ensures Valid() && fresh(buckets) && contents == map[]
    {
      buckets := new Bucket[INITIAL_CAPACITY](_ => Empty);
      occupied, tombstones, contents := 0, 0, map[];
      new;
      EmptyTable(buckets[..]);
      assert PowerOfTwo(16) by { assert PowerOfTwo(4); }
    }

    /** Room without a rehash for count more entries. */
    predicate Fits(count: nat)
      reads this
      requires occupied <= Limit(buckets.Length)
    {
      count <= Limit(buckets.Length) - occupied && tombstones <= Limit(buckets.Length) - occupied - count
    }

    method Find(k: Key) returns (found: bool, index: nat)
      requires Valid()
      ensures found <==> k in contents
      ensures index < buckets.Length
      ensures found ==> buckets[index] == Full(k, contents[k])
      ensures !found ==> !buckets[index].Full? && Reached(buckets[..], k, index)
    {
      found, index := FindBucket(buckets, k, contents);
    }

    /** `publish_entry` in the bucket that the lookup of the same lock scope returned. */
    method Publish(k: Key, entry: nat, index: nat)
      requires Valid() && k !in contents
      requires index < buckets.Length && !buckets[index].Full? && Reached(buckets[..], k, index)
      requires occupied + tombstones < Limit(buckets.Length)
      modifies this`occupied, this`tombstones, this`contents, buckets
      ensures Valid() && contents == old(contents)[k := entry]
    {
      hide IndexOk, Reached, Limit;
      AddKey(buckets[..], contents, occupied, tombstones, k, entry, index);
      if buckets[index].Tombstone? {
        tombstones := tombstones - 1;
      }
      buckets[index] := Full(k, entry);
      occupied, contents := occupied + 1, contents[k := entry];
      assert buckets[..] == old(buckets[..])[index := Full(k, entry)];
    }

    /** `remove_entry`: the bucket becomes a tombstone. */
    method Remove(k: Key)
      requires Valid()
      modifies this`occupied, this`tombstones, this`contents, buckets
      ensures Valid() && contents == old(contents) - {k}
    {
      hide IndexOk, Reached;
      var found, index := Find(k);
      if found {
        DropKey(buckets[..], contents, occupied, tombstones, index);
        buckets[index] := Tombstone;
        occupied, tombstones, contents := occupied - 1, tombstones + 1, contents - {k};
        assert buckets[..] == old(buckets[..])[index := Tombstone];
      } else {
        assert contents - {k} == contents;
      }
    }

    /** `required_capacity`: the first doubling with room for count more entries, or 0 when the size would
        overflow. */
    method RequiredCapacity(count: nat) returns (r: nat)
      requires Valid() && count <= SIZE_MAX
      ensures r != 0 ==> buckets.Length <= r && FirstFit(buckets.Length, occupied + count, r) && PowerOfTwo(r)
      ensures r == 0 ==> NoFit(buckets.Length, occupied + count)
    {
      hide IndexOk, PowerOfTwo, Doubled, NoFit;
      IndexSizes(buckets[..], contents, occupied, tombstones);
      if count > SIZE_MAX - occupied {
        TooMany(buckets.Length, occupied + count);
        return 0;
      }
      var needed, capacity := occupied + count, buckets.Length;
      DoubledNone(capacity, needed);
      while needed > capacity - capacity / 4
        invariant buckets.Length <= capacity <= SIZE_MAX && Doubled(buckets.Length, needed, capacity)
        decreases SIZE_MAX - capacity
      {
        if capacity > SIZE_MAX / 2 {
          TopTooSmall(buckets.Length, needed, capacity);
          return 0;
        }
        DoubledNext(buckets.Length, needed, capacity);
        capacity := capacity * 2;
      }
      DoubledPower(buckets.Length, needed, capacity);
      return capacity;
    }

    /** The second lock scope of `reserve_buckets`, with the bucket array allocated in between: rehash when
        the first scope's decision still stands, which fails only for another capacity or a table of the wrong size. */
    method Install(count: nat, oldCapacity: nat, table: array<Bucket>) returns (done: bool)
      requires Valid() && count <= SIZE_MAX && table != buckets
      requires forall i :: 0 <= i < table.Length ==> table[i].Empty?
      modifies this, table
      ensures Valid() && contents == old(contents) && occupied == old(occupied)
      ensures occupied <= Limit(buckets.Length)
      ensures done ==> Fits(count)
      ensures done <==>
                || old(Fits(count))
                || (old(buckets).Length == oldCapacity && FirstFit(oldCapacity, occupied + count, table.Length))
      ensures !done || old(Fits(count)) ==> buckets == old(buckets) && tombstones == old(tombstones)
      ensures done && !old(Fits(count)) ==> buckets == table && tombstones == 0
    {
      hide IndexOk, FirstFit, Limit, PowerOfTwo;
      IndexSizes(buckets[..], contents, occupied, tombstones);
      if Fits(count) {
        return true;
      }
      var required := RequiredCapacity(count);
      FirstFitRoom(buckets.Length, occupied + count, required);
      if required != 0 && FirstFit(buckets.Length, occupied + count, table.Length) {
        FirstFitIsOne(buckets.Length, occupied + count, required, table.Length);
      }
      if buckets.Length != oldCapacity || table.Length == 0 || table.Length != required {
        return false;
      }
      Rehash(table, count);
      return true;
    }

    method Rehash(table: array<Bucket>, ghost count: nat)
      requires Valid() && table != buckets && table.Length <= SIZE_MAX && PowerOfTwo(table.Length)
      requires INITIAL_CAPACITY <= table.Length && occupied + count <= Limit(table.Length)
      requires forall i :: 0 <= i < table.Length ==> table[i].Empty?
      modifies this`buckets, this`tombstones, table
      ensures Valid() && contents == old(contents) && occupied == old(occupied)
      ensures buckets == table && tombstones == 0
    {
      hide IndexOk, Holds, Copied, Count, PowerOfTwo, Reached, Limit;
      ghost var was, m := buckets[..], contents;
      var retired := buckets;
      EmptyTable(table[..]);
      ghost var part: map<Key, nat> := map[];
      StartCopy(was, m);
      IndexParts(was, m, occupied, tombstones);
      var i := 0;
      while i < retired.Length
        invariant i <= retired.Length && retired[..] == was && retired == old(buckets) && buckets == old(buckets)
        invariant Copied(was, i, m, part) && part.Keys <= m.Keys
        invariant Holds(table[..], part) && Count(table[..], false) == |part| && Count(table[..], true) == 0
      {
        var entry := retired[i];
        assert entry == was[i];
        CopiedNext(was, i, m, part);
        if entry.Full? {
          PartSize(m, part);
          LimitBelow(table.Length);
          var found, index := FindBucket(table, entry.key, part);
          assert !found;
          ghost var before := table[..];
          FillHolds(before, part, entry.key, entry.entry, index);
          CountFilled(before, index, entry);
          table[index] := entry;
          assert table[..] == before[index := entry];
          part := part[entry.key := entry.entry];
        }
        i := i + 1;
      }
      CopiedAll(was, m, part);
      buckets, tombstones := table, 0;
      IndexMade(buckets[..], m, occupied);
    }
  }
}
