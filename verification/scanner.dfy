/**
 The record-list pipeline of scanner.go: a `DupeScanner` holds a list of
 file records and narrows it by size, by hashes of the first or last bytes
 compared by inode, and finally groups the survivors by whole-file hash and
 size.

 The workers of worker.go run concurrently; what a stage observes is the
 per-job outcome (`Worker.JobResult`) of every record and the order in
 which the results come back, a parameter `arrive` that reorders the
 results but neither loses nor invents one. The ticker and start time are
 progress output only and are not modelled.
 */
module Scanner {
  import opened Common
  import opened Grouping
  import opened FileSystem
  import opened FileInfos
  import opened Worker

  /** scanner.go `DupeScanner`, without the progress fields. */
  datatype DupeScanner = DupeScanner(files: seq<FileInfo>, workerCount: int)

  /** How a concurrent stage ends. */
  datatype Run<T> =
    | Finished(value: T)
      /** A goroutine panicked and the process died. */
    | Crashed
      /** The stage waits forever. */
    | Hangs
      /** A read failed inside a job: worker.go keeps reading and releases
          the wait group twice, which this model does not follow. */
    | ReadFailed

  /** scanner.go `New`: an empty scanner. */
  function New(workerCount: int): (ds: DupeScanner)
    ensures ds.files == [] && ds.workerCount == workerCount
  {
    DupeScanner([], workerCount)
  }

  /** scanner.go `Reset`: the list is emptied and nothing else changes. */
  function Reset(ds: DupeScanner): (r: DupeScanner)
    ensures r.files == [] && r.workerCount == ds.workerCount
  {
    ds.(files := [])
  }

  /** scanner.go `AddFile`: the record is appended; the returned error is always nil. */
  function AddFile(ds: DupeScanner, info: FileInfo): (r: (DupeScanner, Option<Error>))
    ensures r.1 == None
    ensures r.0.workerCount == ds.workerCount
    ensures |r.0.files| == |ds.files| + 1 && r.0.files[..|ds.files|] == ds.files
    ensures r.0.files[|ds.files|] == info
  {
    (ds.(files := ds.files + [info]), None)
  }

  /* ---------------------------------------------------------- GetFileCount */

  function SizeOfInfo(f: FileInfo): u64 {
    f.Size()
  }

  /** The sizes of the records added up, without wrap-around. */
  function TotalSize(files: seq<FileInfo>): nat {
    if |files| == 0 then 0 else TotalSize(files[..|files| - 1]) + files[|files| - 1].Size()
  }

  /** Adding a record adds one to the count and its size to the total. */
  lemma AddFileCounts(ds: DupeScanner, info: FileInfo)
    ensures |AddFile(ds, info).0.files| == |ds.files| + 1
    ensures TotalSize(AddFile(ds, info).0.files) == TotalSize(ds.files) + info.Size()
  {
    var fs := AddFile(ds, info).0.files;
    assert fs[..|fs| - 1] == ds.files;
  }

  /** scanner.go `GetFileCount`: the number of records and their total size, added up in a `uint64`. */
  method GetFileCount(ds: DupeScanner) returns (l: int, ts: u64)
    ensures l == |ds.files|
    ensures ts == Wrap64(TotalSize(ds.files))
  {
    ts := 0;
    var i := 0;
    while i < |ds.files|
      invariant 0 <= i <= |ds.files|
      invariant ts == Wrap64(TotalSize(ds.files[..i]))
    {
      assert ds.files[..i + 1][..i] == ds.files[..i];
      WrapAdd(TotalSize(ds.files[..i]), ds.files[i].Size());
      ts := Wrap64(ts + ds.files[i].Size());
      i := i + 1;
    }
    assert ds.files[..i] == ds.files;
    l := |ds.files|;
  }

  /* ----------------------------------------------------- RemoveFileOrphans */

  /** The records whose size at least one other record shares, in list order. */
  function OrphanFree(files: seq<FileInfo>): seq<FileInfo> {
    Having(files, (f: FileInfo) => SharesKey(files, SizeOfInfo, f), true)
  }

  /** A record survives the orphan pass exactly when another record has its size; copies are kept. */
  lemma OrphanFreeMembers(files: seq<FileInfo>, f: FileInfo)
    ensures multiset(OrphanFree(files))[f] == if SharesKey(files, SizeOfInfo, f) then multiset(files)[f] else 0
    ensures f in OrphanFree(files) <==> f in files && SharesKey(files, SizeOfInfo, f)
  {
    HavingCount(files, (g: FileInfo) => SharesKey(files, SizeOfInfo, g), true, f);
    assert f in OrphanFree(files) <==> multiset(OrphanFree(files))[f] > 0;
  }

  /** The orphan pass keeps the list order. */
  lemma OrphanFreeSubsequence(files: seq<FileInfo>)
    ensures IsSubsequence(OrphanFree(files), files)
  {
    HavingIsSubsequence(files, (f: FileInfo) => SharesKey(files, SizeOfInfo, f), true);
  }

  /** A size keeps all its records or none. */
  lemma OrphanFreeSizeClass(files: seq<FileInfo>, s: u64)
    ensures var n := |Having(files, SizeOfInfo, s)|;
      multiset(Having(OrphanFree(files), SizeOfInfo, s)) == if n >= 2 then multiset(Having(files, SizeOfInfo, s)) else multiset{}
  {
    var n := |Having(files, SizeOfInfo, s)|;
    forall f
      ensures multiset(Having(OrphanFree(files), SizeOfInfo, s))[f]
           == (if n >= 2 then multiset(Having(files, SizeOfInfo, s)) else multiset{})[f]
    {
      HavingCount(OrphanFree(files), SizeOfInfo, s, f);
      HavingCount(files, SizeOfInfo, s, f);
      OrphanFreeMembers(files, f);
    }
  }

  /** After the orphan pass every remaining size is shared, so a second pass changes nothing. */
  lemma OrphanFreeIdempotent(files: seq<FileInfo>)
    ensures forall i :: 0 <= i < |OrphanFree(files)| ==> SharesKey(OrphanFree(files), SizeOfInfo, OrphanFree(files)[i])
    ensures OrphanFree(OrphanFree(files)) == OrphanFree(files)
  {
    var r := OrphanFree(files);
    forall i | 0 <= i < |r|
      ensures SharesKey(r, SizeOfInfo, r[i])
    {
      var f := r[i];
      var s := f.Size();
      OrphanFreeMembers(files, f);
      OrphanFreeSizeClass(files, s);
      assert |multiset(Having(r, SizeOfInfo, s))| == |Having(r, SizeOfInfo, s)|;
      assert |multiset(Having(files, SizeOfInfo, s))| == |Having(files, SizeOfInfo, s)|;
    }
    HavingAll(r, (f: FileInfo) => SharesKey(r, SizeOfInfo, f), true);
  }

  /** scanner.go lines 36-40: how many records there are of every size. */
  method CountSizes(files: seq<FileInfo>) returns (counts: map<u64, nat>)
    ensures forall s :: s in counts <==> |Having(files, SizeOfInfo, s)| > 0
    ensures forall s :: s in counts ==> counts[s] == |Having(files, SizeOfInfo, s)|
  {
    counts := map[];
    var i := 0;
    while i < |files|
      invariant 0 <= i <= |files|
      invariant forall s :: s in counts <==> |Having(files[..i], SizeOfInfo, s)| > 0
      invariant forall s :: s in counts ==> counts[s] == |Having(files[..i], SizeOfInfo, s)|
    {
      var s := files[i].Size();
      assert files[..i + 1][..i] == files[..i];
      counts := counts[s := (if s in counts then counts[s] else 0) + 1];
      i := i + 1;
    }
    assert files[..i] == files;
  }

  /** scanner.go lines 42-48: the sizes counted more than once. */
  method SizesWithDupes(counts: map<u64, nat>) returns (hasDupes: set<u64>)
    ensures forall s :: s in hasDupes <==> s in counts && counts[s] > 1
  {
    hasDupes := {};
    var todo := counts.Keys;
    while todo != {}
      invariant todo <= counts.Keys
      invariant forall s :: s in hasDupes <==> s in counts && s !in todo && counts[s] > 1
      decreases |todo|
    {
      var s :| s in todo;
      if counts[s] > 1 {
        hasDupes := hasDupes + {s};
      }
      todo := todo - {s};
    }
  }

  /** scanner.go lines 52-63: the records of the marked sizes, in list order. */
  method KeepSizes(files: seq<FileInfo>, sizes: set<u64>) returns (newFiles: seq<FileInfo>)
    ensures newFiles == Having(files, (f: FileInfo) => f.Size() in sizes, true)
  {
    var keep := (f: FileInfo) => f.Size() in sizes;
    newFiles := [];
    var i := 0;
    while i < |files|
      invariant 0 <= i <= |files|
      invariant newFiles == Having(files[..i], keep, true)
    {
      assert files[..i + 1][..i] == files[..i];
      if files[i].Size() in sizes {
        newFiles := newFiles + [files[i]];
      }
      i := i + 1;
    }
    assert files[..i] == files;
  }

  /**
   scanner.go `RemoveFileOrphans`: count the records of every size, mark
   the sizes counted more than once, then keep the records of marked sizes
   in list order.
   */
  method RemoveFileOrphans(ds: DupeScanner) returns (r: DupeScanner)
    ensures r.workerCount == ds.workerCount
    ensures r.files == OrphanFree(ds.files)
  {
    var counts := CountSizes(ds.files);
    var hasDupes := SizesWithDupes(counts);
    var newFiles := KeepSizes(ds.files, hasDupes);
    HavingAgree(ds.files, (f: FileInfo) => f.Size() in hasDupes, (f: FileInfo) => SharesKey(ds.files, SizeOfInfo, f), true);
    r := ds.(files := newFiles);
  }

  /* ---------------------------------------------------- RemoveBasedOnBytes */

  /** The order results come back in is a reordering of what the workers emitted. */
  ghost predicate Permutes(arrive: seq<HasherResult> -> seq<HasherResult>) {
    forall rs :: multiset(arrive(rs)) == multiset(rs)
  }

  /** Every record's job outcome, in list order. */
  function Outcomes(files: seq<FileInfo>, disk: Path -> FileHandle, readSize: nat, rt: ReadOperationType,
                    sha: Bytes -> Bytes): (os: seq<JobOutcome>)
    ensures |os| == |files|
    ensures forall i :: 0 <= i < |files| ==> os[i] == JobResult(disk(files[i].path), files[i], readSize, rt, sha)
  {
    seq(|files|, i requires 0 <= i < |files| => JobResult(disk(files[i].path), files[i], readSize, rt, sha))
  }

  /** The results the jobs put on `Results`, in job order; open errors send none. */
  function EmittedResults(os: seq<JobOutcome>): (rs: seq<HasherResult>)
    ensures forall r :: r in rs <==> JobOutcome.Emitted(r) in os
  {
    if |os| == 0 then []
    else
      var last := os[|os| - 1];
      assert forall o :: o in os <==> o in os[..|os| - 1] || o == last by {
        assert os == os[..|os| - 1] + [last];
      }
      EmittedResults(os[..|os| - 1]) + (if last.Emitted? then [last.result] else [])
  }

  /**
   How starting the workers ends before any result is read: a negative
   worker count makes the job channel impossible to create, no workers
   with jobs to hand out wait forever, and a negative read size makes every
   worker's buffer allocation panic. Otherwise a job that never finishes
   or a failed read decides the stage; else the emitted results.
   */
  function RunWorkers(ds: DupeScanner, readSize: i64, rt: ReadOperationType, disk: Path -> FileHandle,
                      sha: Bytes -> Bytes): (r: Run<seq<HasherResult>>)
    ensures ds.workerCount < 0 ==> r == Crashed
    ensures ds.workerCount == 0 ==> (r == if |ds.files| == 0 then Finished([]) else Hangs)
    ensures ds.workerCount > 0 && readSize < 0 ==> r == Crashed
    ensures r.Finished? ==> forall i :: 0 <= i < |ds.files| && disk(ds.files[i].path).Readable? ==>
      HasherResult(Hex(sha(HashedRange(disk(ds.files[i].path).content, readSize as nat, rt))), ds.files[i]) in r.value
    ensures r.Finished? ==> forall x :: x in r.value ==> x.info in ds.files
  {
    if ds.workerCount < 0 then Crashed
    else if ds.workerCount == 0 then (if |ds.files| == 0 then Finished([]) else Hangs)
    else if readSize < 0 then Crashed
    else
      var os := Outcomes(ds.files, disk, readSize as nat, rt, sha);
      if exists i :: 0 <= i < |os| && os[i].NoProgress? then Hangs
      else if exists i :: 0 <= i < |os| && os[i].ReadError? then ReadFailed
      else
        var rs := EmittedResults(os);
        assert forall i :: 0 <= i < |os| && os[i].Emitted? ==> os[i].result in rs;
        assert forall x :: x in rs ==> x.info in ds.files by {
          forall x | x in rs
            ensures x.info in ds.files
          {
            var i :| 0 <= i < |os| && os[i] == JobOutcome.Emitted(x);
          }
        }
        Finished(rs)
  }

  function HashOf(r: HasherResult): string {
    r.hash
  }

  /** scanner.go lines 116-128: the inodes of every result whose hash at least one other result shares. */
  function KeepInodes(results: seq<HasherResult>): (keep: set<u64>)
    ensures forall n :: n in keep <==> exists i :: 0 <= i < |results| && results[i].info.inode == n && SharesKey(results, HashOf, results[i])
  {
    var hashMap := Collect(results, HashOf);
    var keep := set h, x | h in hashMap && |hashMap[h]| > 1 && x in hashMap[h] :: x.info.inode;
    assert forall n :: n in keep ==> exists i :: 0 <= i < |results| && results[i].info.inode == n && SharesKey(results, HashOf, results[i]) by {
      forall n | n in keep
        ensures exists i :: 0 <= i < |results| && results[i].info.inode == n && SharesKey(results, HashOf, results[i])
      {
        var h, x :| h in hashMap && |hashMap[h]| > 1 && x in hashMap[h] && x.info.inode == n;
        assert x in multiset(Having(results, HashOf, h));
        HavingCount(results, HashOf, h, x);
        var i :| 0 <= i < |results| && results[i] == x;
      }
    }
    assert forall i :: 0 <= i < |results| && SharesKey(results, HashOf, results[i]) ==> results[i].info.inode in keep by {
      forall i | 0 <= i < |results| && SharesKey(results, HashOf, results[i])
        ensures results[i].info.inode in keep
      {
        CollectCovers(results, HashOf, i);
      }
    }
    keep
  }

  /** The kept inodes are the same whatever order the results arrived in. */
  lemma KeepInodesOrderFree(rs1: seq<HasherResult>, rs2: seq<HasherResult>)
    requires multiset(rs1) == multiset(rs2)
    ensures KeepInodes(rs1) == KeepInodes(rs2)
  {
    forall n | n in KeepInodes(rs1)
      ensures n in KeepInodes(rs2)
    {
      var i :| 0 <= i < |rs1| && rs1[i].info.inode == n && SharesKey(rs1, HashOf, rs1[i]);
      HavingPermutation(rs1, rs2, HashOf, rs1[i].hash);
      assert rs1[i] in multiset(rs2);
      var j :| 0 <= j < |rs2| && rs2[j] == rs1[i];
    }
    forall n | n in KeepInodes(rs2)
      ensures n in KeepInodes(rs1)
    {
      var j :| 0 <= j < |rs2| && rs2[j].info.inode == n && SharesKey(rs2, HashOf, rs2[j]);
      HavingPermutation(rs1, rs2, HashOf, rs2[j].hash);
      assert rs2[j] in multiset(rs1);
      var i :| 0 <= i < |rs1| && rs1[i] == rs2[j];
    }
  }

  /** The records whose inode is kept, in list order (scanner.go lines 132-140). */
  function WithInodes(files: seq<FileInfo>, keep: set<u64>): seq<FileInfo> {
    Having(files, (f: FileInfo) => f.inode in keep, true)
  }

  /**
   scanner.go `RemoveBasedOnBytes`: hash the chosen bytes of every record,
   keep the records whose inode appears in a hash group of more than one
   result, then drop the orphans by size.
   */
  function RemoveBasedOnBytes(ds: DupeScanner, readSize: i64, rt: ReadOperationType, disk: Path -> FileHandle,
                              sha: Bytes -> Bytes, arrive: seq<HasherResult> -> seq<HasherResult>): (r: Run<DupeScanner>)
    requires Permutes(arrive)
    ensures RunWorkers(ds, readSize, rt, disk, sha).Finished? <==> r.Finished?
    ensures r.Finished? ==> r.value.workerCount == ds.workerCount
  {
    match RunWorkers(ds, readSize, rt, disk, sha)
    case Finished(results) =>
      var keep := KeepInodes(arrive(results));
      Finished(ds.(files := OrphanFree(WithInodes(ds.files, keep))))
    case Crashed => Crashed
    case Hangs => Hangs
    case ReadFailed => ReadFailed
  }

  /**
   What survives a byte stage: a record in the original order whose inode
   produced a hash that another result shares, and whose size another
   survivor shares.
   */
  lemma RemoveBasedOnBytesKeeps(ds: DupeScanner, readSize: i64, rt: ReadOperationType, disk: Path -> FileHandle,
                                sha: Bytes -> Bytes, arrive: seq<HasherResult> -> seq<HasherResult>, f: FileInfo)
    requires Permutes(arrive)
    requires RemoveBasedOnBytes(ds, readSize, rt, disk, sha, arrive).Finished?
    ensures var results := RunWorkers(ds, readSize, rt, disk, sha).value;
      var mid := WithInodes(ds.files, KeepInodes(results));
      var out := RemoveBasedOnBytes(ds, readSize, rt, disk, sha, arrive).value.files;
      && IsSubsequence(out, ds.files)
      && (f in out <==> f in ds.files && f.inode in KeepInodes(results) && SharesKey(mid, SizeOfInfo, f))
  {
    var results := RunWorkers(ds, readSize, rt, disk, sha).value;
    KeepInodesOrderFree(arrive(results), results);
    var keep := KeepInodes(results);
    var mid := WithInodes(ds.files, keep);
    OrphanFreeSubsequence(mid);
    HavingIsSubsequence(ds.files, (g: FileInfo) => g.inode in keep, true);
    SubsequenceTransitive(OrphanFree(mid), mid, ds.files);
    OrphanFreeMembers(mid, f);
    HavingCount(ds.files, (g: FileInfo) => g.inode in keep, true, f);
    assert f in mid <==> multiset(mid)[f] > 0;
  }

  /** A byte stage's outcome does not depend on the order the results came back in. */
  lemma RemoveBasedOnBytesOrderFree(ds: DupeScanner, readSize: i64, rt: ReadOperationType, disk: Path -> FileHandle,
                                    sha: Bytes -> Bytes, arrive1: seq<HasherResult> -> seq<HasherResult>,
                                    arrive2: seq<HasherResult> -> seq<HasherResult>)
    requires Permutes(arrive1) && Permutes(arrive2)
    ensures RemoveBasedOnBytes(ds, readSize, rt, disk, sha, arrive1) == RemoveBasedOnBytes(ds, readSize, rt, disk, sha, arrive2)
  {
    var w := RunWorkers(ds, readSize, rt, disk, sha);
    if w.Finished? {
      KeepInodesOrderFree(arrive1(w.value), arrive2(w.value));
    }
  }

  /* -------------------------------------------------------- HashDuplicates */

  /** Where a result is filed: its hash, then its record's size. */
  function Slot(r: HasherResult): (string, u64) {
    (r.hash, r.info.Size())
  }

  /** The records of a sequence of results. */
  function InfosOf(rs: seq<HasherResult>): (fs: seq<FileInfo>)
    ensures |fs| == |rs|
    ensures forall i :: 0 <= i < |rs| ==> fs[i] == rs[i].info
  {
    if |rs| == 0 then [] else InfosOf(rs[..|rs| - 1]) + [rs[|rs| - 1].info]
  }

  lemma InfosOfSnoc(rs: seq<HasherResult>, x: HasherResult)
    ensures InfosOf(rs + [x]) == InfosOf(rs) + [x.info]
  {
  }

  lemma HavingSnoc<K(!new), V(!new)>(vs: seq<V>, x: V, key: V -> K, k: K)
    ensures Having(vs + [x], key, k) == Having(vs, key, k) + (if key(x) == k then [x] else [])
  {
    assert (vs + [x])[..|vs|] == vs;
  }

  /** `m` files every result of `rs` under its hash and size, in arrival order, and holds nothing else. */
  ghost predicate Grouped(rs: seq<HasherResult>, m: map<string, map<u64, seq<FileInfo>>>) {
    && (forall h :: h in m ==> m[h] != map[])
    && (forall h, s :: h in m && s in m[h] ==> m[h][s] == InfosOf(Having(rs, Slot, (h, s))))
    && (forall h, s :: (h in m && s in m[h]) <==> |Having(rs, Slot, (h, s))| > 0)
  }

  /** scanner.go lines 155-160: `m[hash][size] = append(m[hash][size], info)` for every result in arrival order. */
  function GroupByHashAndSize(rs: seq<HasherResult>): (m: map<string, map<u64, seq<FileInfo>>>)
    ensures Grouped(rs, m)
  {
    if |rs| == 0 then map[]
    else
      var init, last := rs[..|rs| - 1], rs[|rs| - 1];
      var m := GroupByHashAndSize(init);
      var r := m[last.hash := Append(if last.hash in m then m[last.hash] else map[], last.info.Size(), last.info)];
      GroupStep(rs, m, r);
      r
  }

  /** One append keeps the shape of `GroupByHashAndSize`'s result. */
  lemma GroupStep(rs: seq<HasherResult>, m: map<string, map<u64, seq<FileInfo>>>,
                  r: map<string, map<u64, seq<FileInfo>>>)
    requires |rs| > 0 && Grouped(rs[..|rs| - 1], m)
    requires var last := rs[|rs| - 1];
      r == m[last.hash := Append(if last.hash in m then m[last.hash] else map[], last.info.Size(), last.info)]
    ensures Grouped(rs, r)
  {
    var last := rs[|rs| - 1];
    forall h, s
      ensures h in r && s in r[h] ==> r[h][s] == InfosOf(Having(rs, Slot, (h, s)))
      ensures (h in r && s in r[h]) <==> |Having(rs, Slot, (h, s))| > 0
    {
      GroupStepAt(rs, m, r, h, s);
    }
    GroupNonEmpty(m, r, last);
  }

  /** Appending never leaves an empty inner map. */
  lemma GroupNonEmpty(m: map<string, map<u64, seq<FileInfo>>>, r: map<string, map<u64, seq<FileInfo>>>, last: HasherResult)
    requires forall h :: h in m ==> m[h] != map[]
    requires r == m[last.hash := Append(if last.hash in m then m[last.hash] else map[], last.info.Size(), last.info)]
    ensures forall h :: h in r ==> r[h] != map[]
  {
    assert last.info.Size() in r[last.hash];
  }

  lemma GroupStepAt(rs: seq<HasherResult>, m: map<string, map<u64, seq<FileInfo>>>,
                    r: map<string, map<u64, seq<FileInfo>>>, h: string, s: u64)
    requires |rs| > 0
    requires var init := rs[..|rs| - 1];
      && (h in m && s in m[h] ==> m[h][s] == InfosOf(Having(init, Slot, (h, s))))
      && ((h in m && s in m[h]) <==> |Having(init, Slot, (h, s))| > 0)
    requires var last := rs[|rs| - 1];
      r == m[last.hash := Append(if last.hash in m then m[last.hash] else map[], last.info.Size(), last.info)]
    ensures h in r && s in r[h] ==> r[h][s] == InfosOf(Having(rs, Slot, (h, s)))
    ensures (h in r && s in r[h]) <==> |Having(rs, Slot, (h, s))| > 0
  {
    var init, last := rs[..|rs| - 1], rs[|rs| - 1];
    assert rs == init + [last];
    var before, after := Having(init, Slot, (h, s)), Having(init + [last], Slot, (h, s));
    HavingSnoc(init, last, Slot, (h, s));
    var inner := if last.hash in m then m[last.hash] else map[];
    var size := last.info.Size();
    if h != last.hash {
      assert after == before;
      assert h in r <==> h in m;
      if h in r {
        assert r[h] == m[h];
      }
    } else if s != size {
      assert after == before;
      assert r[h] == inner[size := (if size in inner then inner[size] else []) + [last.info]];
      assert s in r[h] <==> s in inner;
      if s in inner {
        assert r[h][s] == inner[s] == m[h][s];
      }
    } else {
      GroupSlotHit(init, last, m, r, h, s);
    }
  }

  /** The slot the appended result lands in. */
  lemma GroupSlotHit(init: seq<HasherResult>, last: HasherResult, m: map<string, map<u64, seq<FileInfo>>>,
                     r: map<string, map<u64, seq<FileInfo>>>, h: string, s: u64)
    requires h in m && s in m[h] ==> m[h][s] == InfosOf(Having(init, Slot, (h, s)))
    requires (h in m && s in m[h]) <==> |Having(init, Slot, (h, s))| > 0
    requires r == m[last.hash := Append(if last.hash in m then m[last.hash] else map[], last.info.Size(), last.info)]
    requires h == last.hash && s == last.info.Size()
    ensures h in r && s in r[h]
    ensures r[h][s] == InfosOf(Having(init + [last], Slot, (h, s)))
    ensures |Having(init + [last], Slot, (h, s))| > 0
  {
    var before := Having(init, Slot, (h, s));
    HavingSnoc(init, last, Slot, (h, s));
    InfosOfSnoc(before, last);
    var inner := if last.hash in m then m[last.hash] else map[];
    assert r[h][s] == (if s in inner then inner[s] else []) + [last.info];
    if s !in inner {
      assert |before| == 0;
      assert before == [];
    }
  }

  /**
   scanner.go `HashDuplicates`: hash every record whole and file it under
   its hash and size. Single files are reported too; nothing is filtered.
   */
  function HashDuplicates(ds: DupeScanner, readSize: i64, disk: Path -> FileHandle, sha: Bytes -> Bytes,
                          arrive: seq<HasherResult> -> seq<HasherResult>): (r: Run<map<string, map<u64, seq<FileInfo>>>>)
    requires Permutes(arrive)
    ensures RunWorkers(ds, readSize, READ_WHOLE, disk, sha).Finished? <==> r.Finished?
  {
    match RunWorkers(ds, readSize, READ_WHOLE, disk, sha)
    case Finished(results) => Finished(GroupByHashAndSize(arrive(results)))
    case Crashed => Crashed
    case Hangs => Hangs
    case ReadFailed => ReadFailed
  }

  /**
   Every record that was hashed is reported under the digest of its whole
   content and its own size, and every reported record is one of the list.
   */
  lemma HashDuplicatesFiles(ds: DupeScanner, readSize: i64, disk: Path -> FileHandle, sha: Bytes -> Bytes,
                            arrive: seq<HasherResult> -> seq<HasherResult>, i: nat)
    requires Permutes(arrive)
    requires HashDuplicates(ds, readSize, disk, sha, arrive).Finished?
    requires i < |ds.files| && disk(ds.files[i].path).Readable?
    ensures var m, f := HashDuplicates(ds, readSize, disk, sha, arrive).value, ds.files[i];
      var h := Hex(sha(disk(f.path).content));
      h in m && f.Size() in m[h] && f in m[h][f.Size()]
  {
    var results := RunWorkers(ds, readSize, READ_WHOLE, disk, sha).value;
    var f := ds.files[i];
    var x := HasherResult(Hex(sha(HashedRange(disk(f.path).content, readSize as nat, READ_WHOLE))), f);
    assert x in results;
    assert x in multiset(arrive(results));
    var j :| 0 <= j < |arrive(results)| && arrive(results)[j] == x;
    var hs := Having(arrive(results), Slot, Slot(x));
    HavingCount(arrive(results), Slot, Slot(x), x);
    assert x in multiset(hs);
    var k :| 0 <= k < |hs| && hs[k] == x;
    assert InfosOf(hs)[k] == f;
  }

  function InfoOf(r: HasherResult): FileInfo {
    r.info
  }

  /** A record occurs in `InfosOf(rs)` as often as results carrying it occur in `rs`. */
  lemma {:induction false} InfosOfCount(rs: seq<HasherResult>, f: FileInfo)
    ensures multiset(InfosOf(rs))[f] == |Having(rs, InfoOf, f)|
    decreases |rs|
  {
    if |rs| > 0 {
      var init, x := rs[..|rs| - 1], rs[|rs| - 1];
      assert rs == init + [x];
      InfosOfCount(init, f);
      HavingSnoc(init, x, InfoOf, f);
      assert InfosOf(rs) == InfosOf(init) + [x.info];
    }
  }

  /** Reordering the results reorders their records alike. */
  lemma InfosOfPermutation(a: seq<HasherResult>, b: seq<HasherResult>)
    requires multiset(a) == multiset(b)
    ensures multiset(InfosOf(a)) == multiset(InfosOf(b))
  {
    forall f
      ensures multiset(InfosOf(a))[f] == multiset(InfosOf(b))[f]
    {
      InfosOfCount(a, f);
      InfosOfCount(b, f);
      HavingPermutation(a, b, InfoOf, f);
    }
  }

  /** The files under one hash and size are the same, up to order, whatever order the results arrived in. */
  lemma HashDuplicatesOrderFree(rs1: seq<HasherResult>, rs2: seq<HasherResult>, h: string, s: u64)
    requires multiset(rs1) == multiset(rs2)
    ensures var m1, m2 := GroupByHashAndSize(rs1), GroupByHashAndSize(rs2);
      && (h in m1 && s in m1[h] <==> h in m2 && s in m2[h])
      && (h in m1 && s in m1[h] ==> multiset(m1[h][s]) == multiset(m2[h][s]))
  {
    HavingPermutation(rs1, rs2, Slot, (h, s));
    InfosOfPermutation(Having(rs1, Slot, (h, s)), Having(rs2, Slot, (h, s)));
  }
}
