/**
 The stages of the map-based pipeline that work on `size -> paths`
 (filters.go): dropping sizes with a single file, and regrouping each size
 by an xxHash64 checksum of some bytes of every file, keeping only the files
 whose checksum another file of the same size shares.

 The order in which a bucket's results come back from the workers is not
 fixed by the program; it is a parameter `arrive` that may reorder a bucket
 but neither lose nor invent a file.
 */
module Filters {
  import opened Common
  import opened Grouping

  /** Smallest element of a non-empty set of sizes. */
  function MinKey(ks: set<u64>): (k: u64)
    requires ks != {}
    ensures k in ks && forall j :: j in ks ==> k <= j
  {
    MinExists(ks);
    var k :| k in ks && forall j :: j in ks ==> k <= j; k
  }

  lemma MinExists(ks: set<u64>)
    requires ks != {}
    ensures exists k :: k in ks && forall j :: j in ks ==> k <= j
  {
    var k := LeastOf(ks);
    assert k in ks && forall j :: j in ks ==> k <= j;
  }

  lemma {:induction false} LeastOf(ks: set<u64>) returns (m: u64)
    requires ks != {}
    ensures m in ks && forall j :: j in ks ==> m <= j
    decreases |ks|
  {
    var x :| x in ks;
    var rest := ks - {x};
    if rest == {} {
      m := x;
    } else {
      var y := LeastOf(rest);
      m := if x <= y then x else y;
    }
    forall j | j in ks
      ensures m <= j
    {
      if j != x {
        assert j in rest;
      }
    }
  }

  /**
   The number of paths in the map, the first result of `getFileCount`
   (which is not part of this model): the lengths of all buckets added up.
   */
  function FileCount(m: SizeMap): nat
    decreases |m.Keys|
  {
    if m == map[] then 0
    else
      var k := MinKey(m.Keys);
      assert |(m - {k}).Keys| < |m.Keys| by {
        assert (m - {k}).Keys == m.Keys - {k};
      }
      |m[k]| + FileCount(m - {k})
  }

  /** The count can be taken apart at any key, not only the smallest. */
  lemma {:induction false} FileCountSplit(m: SizeMap, k: u64)
    requires k in m
    ensures FileCount(m) == |m[k]| + FileCount(m - {k})
    decreases |m.Keys|
  {
    var j := MinKey(m.Keys);
    if j != k {
      assert (m - {j}).Keys == m.Keys - {j};
      assert (m - {k}).Keys == m.Keys - {k};
      FileCountSplit(m - {j}, k);
      assert (m - {j}) - {k} == (m - {k}) - {j};
      var mk := m - {k};
      assert j in mk.Keys;
      assert MinKey(mk.Keys) in m.Keys;
      assert MinKey(mk.Keys) == j;
      assert FileCount(mk) == |mk[j]| + FileCount(mk - {j});
    }
  }

  /** Every bucket is part of the count. */
  lemma FileCountAtLeastBucket(m: SizeMap, k: u64)
    requires k in m
    ensures FileCount(m) >= |m[k]|
  {
    FileCountSplit(m, k);
  }

  /** Shrinking buckets, or dropping them, never raises the count. */
  lemma {:induction false} FileCountMonotone(a: SizeMap, b: SizeMap)
    requires forall k :: k in a ==> k in b && |a[k]| <= |b[k]|
    ensures FileCount(a) <= FileCount(b)
    decreases |a.Keys|
  {
    if a != map[] {
      var k := MinKey(a.Keys);
      assert (a - {k}).Keys == a.Keys - {k};
      FileCountSplit(b, k);
      FileCountMonotone(a - {k}, b - {k});
    } else {
      assert FileCount(a) == 0;
    }
  }

  /** A map in which no bucket holds exactly one path never counts exactly one path. */
  lemma {:induction false} FileCountNotOne(m: SizeMap)
    requires forall k :: k in m ==> |m[k]| != 1
    ensures FileCount(m) != 1
    decreases |m.Keys|
  {
    if m != map[] {
      var k := MinKey(m.Keys);
      assert (m - {k}).Keys == m.Keys - {k};
      if |m[k]| == 0 {
        FileCountNotOne(m - {k});
      }
    }
  }

  /** Every bucket of `m` holds at least two paths. */
  predicate NoOrphans(m: SizeMap) {
    forall k :: k in m ==> |m[k]| >= 2
  }

  /**
   filters.go `filterByRemoveOrphans`: every size with fewer than two paths
   is deleted, the other buckets are left as they are.
   */
  function RemoveOrphans(m: SizeMap): (r: SizeMap)
    ensures forall k :: k in r <==> k in m && |m[k]| >= 2
    ensures forall k :: k in r ==> r[k] == m[k]
  {
    map k | k in m && |m[k]| >= 2 :: m[k]
  }

  /** After the orphan pass no bucket is an orphan, and a second pass changes nothing. */
  lemma RemoveOrphansIdempotent(m: SizeMap)
    ensures NoOrphans(RemoveOrphans(m))
    ensures RemoveOrphans(RemoveOrphans(m)) == RemoveOrphans(m)
  {
  }

  /** A map without orphans is left unchanged by the orphan pass. */
  lemma RemoveOrphansKeepsClean(m: SizeMap)
    requires NoOrphans(m)
    ensures RemoveOrphans(m) == m
  {
  }

  /**
   After the orphan pass the file count is either 0 or at least 2, and never
   more than before, so main.go's `fileCount < 2` test after such a pass
   fires exactly when the map became empty.
   */
  lemma RemoveOrphansCount(m: SizeMap)
    ensures FileCount(RemoveOrphans(m)) <= FileCount(m)
    ensures FileCount(RemoveOrphans(m)) < 2 <==> RemoveOrphans(m) == map[]
  {
    var r := RemoveOrphans(m);
    FileCountMonotone(r, m);
    if r != map[] {
      var k :| k in r;
      FileCountAtLeastBucket(r, k);
    }
  }

  /** filters.go `byteWorkerResult`. */
  datatype ByteResult = ByteResult(filename: Path, checksum: u64, readBytes: u64)

  /**
   filters.go `byteReaderWorker` for one job: the bytes `fn` returns are
   hashed with xxHash64 (`xx`); an error from `fn` panics (None).
   */
  function ByteReaderWorker(readSize: u64, fn: (Path, u64) -> Result<Bytes>, xx: Bytes -> u64,
                            job: Path): (r: Option<ByteResult>)
    ensures r.None? <==> fn(job, readSize).Err?
    ensures r.Some? ==> r.value.filename == job
    ensures r.Some? ==> r.value.checksum == xx(fn(job, readSize).value)
    ensures r.Some? && |fn(job, readSize).value| == readSize ==> r.value.readBytes == readSize
  {
    match fn(job, readSize)
    case Err(_) => None
    case Ok(b) => Some(ByteResult(job, xx(b), Wrap64(|b|)))
  }

  /** The checksum a path's result carries; only consulted when `fn` succeeded. */
  function ChecksumOf(readSize: u64, fn: (Path, u64) -> Result<Bytes>, xx: Bytes -> u64): Path -> u64 {
    p => match ByteReaderWorker(readSize, fn, xx, p) case Some(res) => res.checksum case None => 0
  }

  /** `arrive` hands back every bucket as a reordering of itself. */
  ghost predicate PermutesBuckets(arrive: (u64, seq<Path>) -> seq<Path>) {
    forall k, s :: multiset(arrive(k, s)) == multiset(s)
  }

  /** Some path in `m` makes `fn` fail. */
  predicate SomeReadFails(m: SizeMap, readSize: u64, fn: (Path, u64) -> Result<Bytes>) {
    exists k, i :: k in m && 0 <= i < |m[k]| && fn(m[k][i], readSize).Err?
  }

  /** Every bucket of `a` is a part of the same bucket of `b`. */
  ghost predicate SubBuckets(a: SizeMap, b: SizeMap) {
    forall k :: k in a ==> k in b && multiset(a[k]) <= multiset(b[k])
  }

  lemma SubBucketsTransitive(a: SizeMap, b: SizeMap, c: SizeMap)
    requires SubBuckets(a, b) && SubBuckets(b, c)
    ensures SubBuckets(a, c)
  {
  }

  /**
   filters.go `filterByFuncBytes`: every bucket is replaced by the files
   whose checksum at least one other file of the bucket shares, groups in
   the order their checksum first arrived. A failing read panics.
   */
  function FilterByFuncBytes(m: SizeMap, readSize: u64, fn: (Path, u64) -> Result<Bytes>,
                             xx: Bytes -> u64, arrive: (u64, seq<Path>) -> seq<Path>): (r: Outcome<SizeMap>)
    requires PermutesBuckets(arrive)
    ensures r.Panic? <==> SomeReadFails(m, readSize, fn)
    ensures r.Done? ==> r.value.Keys == m.Keys
    ensures r.Done? ==> forall k :: k in m ==> r.value[k] == Survivors(arrive(k, m[k]), ChecksumOf(readSize, fn, xx))
  {
    if SomeReadFails(m, readSize, fn) then Panic
    else Done(map k | k in m :: Survivors(arrive(k, m[k]), ChecksumOf(readSize, fn, xx)))
  }

  /**
   What survives a byte filter, bucket by bucket: exactly the copies of the
   paths that share their checksum with another path of the same size; so
   every bucket shrinks, and none is left with a single path.
   */
  lemma FilterByFuncBytesKeeps(m: SizeMap, readSize: u64, fn: (Path, u64) -> Result<Bytes>,
                               xx: Bytes -> u64, arrive: (u64, seq<Path>) -> seq<Path>, k: u64, p: Path)
    requires PermutesBuckets(arrive)
    requires FilterByFuncBytes(m, readSize, fn, xx, arrive).Done?
    requires k in m
    ensures var r := FilterByFuncBytes(m, readSize, fn, xx, arrive).value;
      && multiset(r[k])[p] == (if SharesKey(m[k], ChecksumOf(readSize, fn, xx), p) then multiset(m[k])[p] else 0)
      && (p in r[k] <==> p in m[k] && SharesKey(m[k], ChecksumOf(readSize, fn, xx), p))
      && |r[k]| != 1
  {
    var key := ChecksumOf(readSize, fn, xx);
    var vs := arrive(k, m[k]);
    HavingPermutation(vs, m[k], key, key(p));
    SurvivorsMembership(vs, key, p);
    SurvivorsNotSingle(vs, key);
  }

  /** A byte filter only ever removes paths. */
  lemma FilterByFuncBytesNarrows(m: SizeMap, readSize: u64, fn: (Path, u64) -> Result<Bytes>,
                                 xx: Bytes -> u64, arrive: (u64, seq<Path>) -> seq<Path>)
    requires PermutesBuckets(arrive)
    requires FilterByFuncBytes(m, readSize, fn, xx, arrive).Done?
    ensures SubBuckets(FilterByFuncBytes(m, readSize, fn, xx, arrive).value, m)
    ensures FileCount(FilterByFuncBytes(m, readSize, fn, xx, arrive).value) <= FileCount(m)
  {
    var r := FilterByFuncBytes(m, readSize, fn, xx, arrive).value;
    forall k | k in r
      ensures multiset(r[k]) <= multiset(m[k])
    {
      forall p
        ensures multiset(r[k])[p] <= multiset(m[k])[p]
      {
        FilterByFuncBytesKeeps(m, readSize, fn, xx, arrive, k, p);
      }
    }
    forall k | k in r
      ensures |r[k]| <= |m[k]|
    {
      assert |multiset(r[k])| <= |multiset(m[k])| by {
        MultisetSubsetSize(multiset(r[k]), multiset(m[k]));
      }
    }
    FileCountMonotone(r, m);
  }

  /**
   After a byte filter every bucket is empty or holds at least two paths, so
   main.go's `fileCount < 2` test after such a stage fires exactly when no
   path is left at all.
   */
  lemma FilterByFuncBytesCount(m: SizeMap, readSize: u64, fn: (Path, u64) -> Result<Bytes>,
                               xx: Bytes -> u64, arrive: (u64, seq<Path>) -> seq<Path>)
    requires PermutesBuckets(arrive)
    requires FilterByFuncBytes(m, readSize, fn, xx, arrive).Done?
    ensures var r := FilterByFuncBytes(m, readSize, fn, xx, arrive).value;
      FileCount(r) < 2 <==> FileCount(r) == 0
  {
    var r := FilterByFuncBytes(m, readSize, fn, xx, arrive).value;
    forall k | k in r
      ensures |r[k]| != 1
    {
      SurvivorsNotSingle(arrive(k, m[k]), ChecksumOf(readSize, fn, xx));
    }
    FileCountNotOne(r);
  }

  lemma MultisetSubsetSize<T>(a: multiset<T>, b: multiset<T>)
    requires a <= b
    ensures |a| <= |b|
  {
    assert b == a + (b - a);
  }

  /**
   The result does not depend on the order results arrive in, up to the
   order within each bucket.
   */
  lemma FilterByFuncBytesOrderFree(m: SizeMap, readSize: u64, fn: (Path, u64) -> Result<Bytes>, xx: Bytes -> u64,
                                   arrive1: (u64, seq<Path>) -> seq<Path>, arrive2: (u64, seq<Path>) -> seq<Path>, k: u64)
    requires PermutesBuckets(arrive1) && PermutesBuckets(arrive2)
    requires FilterByFuncBytes(m, readSize, fn, xx, arrive1).Done?
    requires k in m
    ensures FilterByFuncBytes(m, readSize, fn, xx, arrive2).Done?
    ensures multiset(FilterByFuncBytes(m, readSize, fn, xx, arrive1).value[k])
         == multiset(FilterByFuncBytes(m, readSize, fn, xx, arrive2).value[k])
  {
    SurvivorsPermutation(arrive1(k, m[k]), arrive2(k, m[k]), ChecksumOf(readSize, fn, xx));
  }

  /**
   A bucket's outcome depends on that bucket alone: two maps that agree on
   a size agree on it after the filter.
   */
  lemma FilterByFuncBytesPerBucket(m1: SizeMap, m2: SizeMap, readSize: u64, fn: (Path, u64) -> Result<Bytes>,
                                   xx: Bytes -> u64, arrive: (u64, seq<Path>) -> seq<Path>, k: u64)
    requires PermutesBuckets(arrive)
    requires FilterByFuncBytes(m1, readSize, fn, xx, arrive).Done?
    requires FilterByFuncBytes(m2, readSize, fn, xx, arrive).Done?
    requires k in m1 && k in m2 && m1[k] == m2[k]
    ensures FilterByFuncBytes(m1, readSize, fn, xx, arrive).value[k]
         == FilterByFuncBytes(m2, readSize, fn, xx, arrive).value[k]
  {
  }

  /**
   filters.go lines 93-98: ten byte-reader workers for sizes up to
   `mebibyte`, two above it.
   */
  function ByteWorkerCount(size: u64, mebibyte: u64): (n: nat)
    ensures n == 10 <==> size <= mebibyte
    ensures n == 2 <==> size > mebibyte
  {
    if size <= mebibyte then 10 else 2
  }

  /** Larger files never get more workers. */
  lemma ByteWorkerCountMonotone(s1: u64, s2: u64, mebibyte: u64)
    requires s1 <= s2
    ensures ByteWorkerCount(s2, mebibyte) <= ByteWorkerCount(s1, mebibyte)
  {
  }
}
