/**
 The driver of the map-based pipeline (main.go): list the directories into
 size buckets, narrow them stage by stage, stopping as soon as fewer than
 two candidates remain, hash what is left, pick one file to keep in every
 group of equal files and remove (or, in a dry run, only report) the rest.

 Everything the program asks of the outside world is a field of `Env`:
 whether each argument is a directory, the directory trees, file contents,
 the two hash functions, the orders in which worker results arrive, and
 what `os.Stat` reports at removal time. `filterByUnique` is not part of
 this model and is a field too, assumed only to remove paths. Whole files
 are hashed as hash.go's `hashFile` does, with its stale-buffer writes.
 */
module Pipeline {
  import opened Common
  import opened Helpers
  import opened FileSystem
  import opened Filters
  import opened Hash

  datatype Env = Env(
    /** The error `isDirectory(dir)` returns, if any. */
    isDirectory: Path -> Option<Error>,
    /** What walking each argument finds. */
    tree: Path -> Listing,
    /** main.go's step 2; its source is not part of this model. */
    filterByUnique: SizeMap -> SizeMap,
    disk: Path -> FileHandle,
    /** `MEBIBYTE`, the length of `hashFile`'s read buffer. */
    hashBuffer: Positive,
    xx: Bytes -> u64,
    sha: Bytes -> Bytes,
    arriveFirst: (u64, seq<Path>) -> seq<Path>,
    arriveLast: (u64, seq<Path>) -> seq<Path>,
    arriveHash: (u64, seq<Path>) -> seq<Path>,
    stat: Path -> Result<u64>)

  /**
   Worker results come back as reorderings of each bucket, and
   `filterByUnique` only removes paths (main.go line 128: it drops the
   non-unique files of overlapping arguments).
   */
  ghost predicate ValidEnv(env: Env) {
    && PermutesBuckets(env.arriveFirst) && PermutesBuckets(env.arriveLast) && PermutesBuckets(env.arriveHash)
    && forall m :: SubBuckets(env.filterByUnique(m), m)
  }

  /** How the process ends. */
  datatype Exit = Completed | ExitCode(code: int) | Panicked

  /** How far the stages got: stopped, or the duplicate groups and the candidates they came from. */
  datatype Stages = Stopped(exit: Exit) | Candidates(dupes: DupeMap, remaining: SizeMap)

  /** main.go lines 111-117: every argument is listed into the same map in turn; an error panics. */
  function ListAll(dirs: seq<Path>, tree: Path -> Listing): (r: Result<SizeMap>)
    ensures r.Ok? ==> forall k :: k in r.value ==> k != 0
  {
    if |dirs| == 0 then Ok(map[])
    else
      match ListAll(dirs[..|dirs| - 1], tree)
      case Err(e) => Err(e)
      case Ok(m) =>
        var last := dirs[|dirs| - 1];
        var r := ListFiles(m, last, tree(last));
        if r.Ok? then
          forall k | k in r.value
            ensures k != 0
          {
            ListFilesProperties(m, last, tree(last), k);
          }
          r
        else r
  }

  /** `GetFirstBytes` and `GetLastBytes` as `filterByFuncBytes` calls them, on a path. */
  function FirstBytesOf(disk: Path -> FileHandle): (Path, u64) -> Result<Bytes> {
    (p: Path, n: u64) => GetFirstBytes(disk(p), n)
  }

  function LastBytesOf(disk: Path -> FileHandle): (Path, u64) -> Result<Bytes> {
    (p: Path, n: u64) => GetLastBytes(disk(p), n)
  }

  /**
   The whole-file hash main.go's `calculateHashes` uses: hash.go `hashFile`
   as written, whose digest is that of the stream `Fed(content, MEBIBYTE)`.
   */
  function HashOfFile(env: Env): Path -> HashFileResult {
    p => HashFileAsWritten(env.disk(p), env.hashBuffer, env.sha)
  }

  /** Stop with exit code 1 when fewer than two candidates remain. */
  predicate TooFew(m: SizeMap) {
    FileCount(m) < 2
  }

  /**
   main.go lines 141-198: the stages after `filterByUnique`, each followed by
   the `fileCount < 2` test: orphans, first bytes, orphans, last bytes,
   orphans, whole-file hashes.
   */
  function Narrow(m: SizeMap, readSize: u64, env: Env): (r: Stages)
    requires ValidEnv(env)
  {
    var m1 := RemoveOrphans(m);
    if TooFew(m1) then Stopped(ExitCode(1))
    else match FilterByFuncBytes(m1, readSize, FirstBytesOf(env.disk), env.xx, env.arriveFirst)
    case Panic => Stopped(Panicked)
    case Done(m2) =>
      if TooFew(m2) then Stopped(ExitCode(1))
      else
        var m3 := RemoveOrphans(m2);
        if TooFew(m3) then Stopped(ExitCode(1))
        else match FilterByFuncBytes(m3, readSize, LastBytesOf(env.disk), env.xx, env.arriveLast)
        case Panic => Stopped(Panicked)
        case Done(m4) =>
          if TooFew(m4) then Stopped(ExitCode(1))
          else
            var m5 := RemoveOrphans(m4);
            if TooFew(m5) then Stopped(ExitCode(1))
            else match CalculateHashes(m5, HashOfFile(env), env.arriveHash)
            case Panic => Stopped(Panicked)
            case Done(d) => Candidates(d, m5)
  }

  /** main.go lines 73-198: argument checks, listing, `filterByUnique`, then the narrowing stages. */
  function RunStages(dirs: seq<Path>, readSize: u64, env: Env): (r: Stages)
    requires ValidEnv(env)
    ensures |dirs| == 0 ==> r == Stopped(ExitCode(1))
    ensures !IsPowerOfTwo(readSize as bv64) ==> r == Stopped(ExitCode(1))
    ensures (exists i :: 0 <= i < |dirs| && env.isDirectory(dirs[i]).Some?) ==> r == Stopped(ExitCode(1))
    ensures r.Candidates? ==> ListAll(dirs, env.tree).Ok?
  {
    if |dirs| == 0 then Stopped(ExitCode(1))
    else if !IsPowerOfTwo(readSize as bv64) then Stopped(ExitCode(1))
    else if exists i :: 0 <= i < |dirs| && env.isDirectory(dirs[i]).Some? then Stopped(ExitCode(1))
    else match ListAll(dirs, env.tree)
    case Err(_) => Stopped(Panicked)
    case Ok(m) =>
      if TooFew(m) then Stopped(ExitCode(1))
      else
        var u := env.filterByUnique(m);
        if TooFew(u) then Stopped(ExitCode(1))
        else Narrow(u, readSize, env)
  }

  /** The map the narrowing stages start from, once listing succeeded. */
  function Unique(dirs: seq<Path>, env: Env): SizeMap
    requires ListAll(dirs, env.tree).Ok?
  {
    env.filterByUnique(ListAll(dirs, env.tree).value)
  }

  /**
   What reaches hashing: buckets taken from the starting map, none an
   orphan, at least two files in all; every reported group holds at least
   two of them with the same size and the same digest.
   */
  lemma NarrowCandidates(m: SizeMap, readSize: u64, env: Env)
    requires ValidEnv(env)
    requires Narrow(m, readSize, env).Candidates?
    ensures var r := Narrow(m, readSize, env);
      && SubBuckets(r.remaining, m)
      && NoOrphans(r.remaining)
      && FileCount(r.remaining) >= 2
      && r.dupes == CalculateHashes(r.remaining, HashOfFile(env), env.arriveHash).value
  {
    var m1 := RemoveOrphans(m);
    var m2 := FilterByFuncBytes(m1, readSize, FirstBytesOf(env.disk), env.xx, env.arriveFirst).value;
    FilterByFuncBytesNarrows(m1, readSize, FirstBytesOf(env.disk), env.xx, env.arriveFirst);
    var m3 := RemoveOrphans(m2);
    var m4 := FilterByFuncBytes(m3, readSize, LastBytesOf(env.disk), env.xx, env.arriveLast).value;
    FilterByFuncBytesNarrows(m3, readSize, LastBytesOf(env.disk), env.xx, env.arriveLast);
    var m5 := RemoveOrphans(m4);
    RemoveOrphansIdempotent(m4);
    assert SubBuckets(m1, m);
    SubBucketsTransitive(m2, m1, m);
    assert SubBuckets(m3, m2);
    SubBucketsTransitive(m3, m2, m);
    SubBucketsTransitive(m4, m3, m);
    assert SubBuckets(m5, m4);
    SubBucketsTransitive(m5, m4, m);
  }

  /** Once past the argument checks, listing and the first count tests, the stages are `Narrow` from the unique map. */
  lemma RunStagesNarrow(dirs: seq<Path>, readSize: u64, env: Env)
    requires ValidEnv(env)
    requires RunStages(dirs, readSize, env).Candidates?
    ensures ListAll(dirs, env.tree).Ok?
    ensures RunStages(dirs, readSize, env) == Narrow(Unique(dirs, env), readSize, env)
  {
  }

  /**
   Two files in one group of the whole-file stage were both among the
   candidates of their size, were both read to the end, and the streams
   `hashFile` fed the hasher for them have equal digests.
   */
  lemma HashedGroupSound(m: SizeMap, env: Env, s: u64, c: CheckSum, p: Path, q: Path)
    requires ValidEnv(env)
    requires CalculateHashes(m, HashOfFile(env), env.arriveHash).Done?
    requires var d := CalculateHashes(m, HashOfFile(env), env.arriveHash).value;
      s in d && c in d[s] && p in d[s][c] && q in d[s][c]
    ensures |CalculateHashes(m, HashOfFile(env), env.arriveHash).value[s][c]| >= 2
    ensures s in m && p in m[s] && q in m[s]
    ensures env.disk(p).Readable? && !env.disk(p).readsFail
    ensures env.disk(q).Readable? && !env.disk(q).readsFail
    ensures env.sha(Fed(env.disk(p).content, env.hashBuffer)) == env.sha(Fed(env.disk(q).content, env.hashBuffer))
  {
    CalculateHashesGroups(m, HashOfFile(env), env.arriveHash, s, c);
    CalculateHashesSameDigest(m, HashOfFile(env), env.arriveHash, s, c, p, q);
  }

  /**
   When the stages reach hashing, every reported group is a set of at least
   two files that the walk listed with one size, read to the end, whose
   hashed streams have equal digests. If the digest never maps two streams
   to one value and both files still hold as many bytes as were listed,
   their contents are equal; `Hash.FedMergesLengths` shows why the second
   condition cannot be dropped.
   */
  lemma RunStagesSound(dirs: seq<Path>, readSize: u64, env: Env, s: u64, c: CheckSum, p: Path, q: Path)
    requires ValidEnv(env)
    requires RunStages(dirs, readSize, env).Candidates?
    requires var d := RunStages(dirs, readSize, env).dupes; s in d && c in d[s] && p in d[s][c] && q in d[s][c]
    ensures ListAll(dirs, env.tree).Ok?
    ensures var listed := ListAll(dirs, env.tree).value;
      s in listed && p in listed[s] && q in listed[s]
    ensures var r := RunStages(dirs, readSize, env);
      && SubBuckets(r.remaining, Unique(dirs, env))
      && |r.dupes[s][c]| >= 2
      && s in r.remaining && p in r.remaining[s] && q in r.remaining[s]
      && env.disk(p).Readable? && env.disk(q).Readable?
      && env.sha(Fed(env.disk(p).content, env.hashBuffer)) == env.sha(Fed(env.disk(q).content, env.hashBuffer))
    ensures (forall a, b :: env.sha(a) == env.sha(b) ==> a == b) && |env.disk(p).content| == s == |env.disk(q).content|
      ==> env.disk(p).content == env.disk(q).content
  {
    RunStagesNarrow(dirs, readSize, env);
    var listed := ListAll(dirs, env.tree).value;
    var r := RunStages(dirs, readSize, env);
    NarrowCandidates(Unique(dirs, env), readSize, env);
    HashedGroupSound(r.remaining, env, s, c, p, q);
    assert SubBuckets(Unique(dirs, env), listed);
    SubBucketsTransitive(r.remaining, Unique(dirs, env), listed);
    assert multiset(r.remaining[s]) <= multiset(listed[s]);
    assert p in multiset(r.remaining[s]) && q in multiset(r.remaining[s]);
    var cp, cq := env.disk(p).content, env.disk(q).content;
    if (forall a, b :: env.sha(a) == env.sha(b) ==> a == b) && |cp| == s == |cq| {
      FedSeparates(cp, cq, env.hashBuffer);
    }
  }

  /* ------------------------------------------------------- collecting groups */

  /** The (size, checksum) entries of the duplicate map. */
  function DupeEntries(d: DupeMap): set<(u64, CheckSum)> {
    set s, c | s in d && c in d[s] :: (s, c)
  }

  /** main.go lines 204-220 for one group: the first file is kept, the others are to be removed. */
  function Record(size: u64, checkSum: CheckSum, files: seq<Path>): (df: DuplicateFile)
    ensures df.size == size && df.checkSum == checkSum
    ensures |files| > 0 ==> [df.keep] + df.remove == files
    ensures |files| == 0 ==> df.keep == "" && df.remove == []
  {
    if |files| == 0 then DuplicateFile(size, checkSum, "", [])
    else DuplicateFile(size, checkSum, files[0], files[1..])
  }

  /**
   main.go lines 202-223: one record per (size, checksum) entry, in the
   order `order` visits them (Go's map iteration order is not fixed).
   */
  function CollectDuplicates(d: DupeMap, order: seq<(u64, CheckSum)>): (list: seq<DuplicateFile>)
    requires Enumerates(order, DupeEntries(d))
    ensures |list| == |order|
    ensures forall i :: 0 <= i < |order| ==> list[i] == Record(order[i].0, order[i].1, d[order[i].0][order[i].1])
  {
    seq(|order|, i requires 0 <= i < |order| =>
      assert order[i] in DupeEntries(d);
      Record(order[i].0, order[i].1, d[order[i].0][order[i].1]))
  }

  /**
   Every group of the duplicate map becomes exactly one record, which keeps
   one of its files and removes all the others; when the group names no
   file twice, the kept file is not among the removed.
   */
  lemma CollectDuplicatesCovers(d: DupeMap, order: seq<(u64, CheckSum)>, s: u64, c: CheckSum)
    requires Enumerates(order, DupeEntries(d))
    requires s in d && c in d[s] && |d[s][c]| >= 2
    ensures var list := CollectDuplicates(d, order);
      exists i :: 0 <= i < |list| && list[i].size == s && list[i].checkSum == c
    ensures var list := CollectDuplicates(d, order);
      forall i :: 0 <= i < |list| && list[i].size == s && list[i].checkSum == c ==>
        && [list[i].keep] + list[i].remove == d[s][c]
        && |list[i].remove| >= 1
        && ((forall a, b :: 0 <= a < b < |d[s][c]| ==> d[s][c][a] != d[s][c][b]) ==> list[i].keep !in list[i].remove)
    ensures var list := CollectDuplicates(d, order);
      forall i, j :: 0 <= i < j < |list| ==> (list[i].size, list[i].checkSum) != (list[j].size, list[j].checkSum)
  {
    var list := CollectDuplicates(d, order);
    assert (s, c) in DupeEntries(d);
    var i :| 0 <= i < |order| && order[i] == (s, c);
    assert list[i].size == s && list[i].checkSum == c;
  }

  /* ---------------------------------------------------------- removing files */

  /** What the pre-removal check of one group finds, file by file in order. */
  datatype Check = Pass | StatFailed | SizeMismatch

  /**
   main.go lines 230-242: every file to be removed is `os.Stat`ed first; an
   error panics, a size other than the group's exits.
   */
  function CheckGroup(remove: seq<Path>, size: u64, stat: Path -> Result<u64>): (r: Check)
    ensures r == Pass <==> forall i :: 0 <= i < |remove| ==> stat(remove[i]) == Ok(size)
  {
    if |remove| == 0 then Pass
    else match stat(remove[0])
      case Err(_) => StatFailed
      case Ok(n) => if n != size then SizeMismatch else CheckGroup(remove[1..], size, stat)
  }

  /** The first group whose check fails, or the length of the list. */
  function FirstBlocked(list: seq<DuplicateFile>, stat: Path -> Result<u64>): (j: nat)
    ensures j <= |list|
    ensures forall i :: 0 <= i < j ==> CheckGroup(list[i].remove, list[i].size, stat) == Pass
    ensures j < |list| ==> CheckGroup(list[j].remove, list[j].size, stat) != Pass
  {
    if |list| == 0 then 0
    else if CheckGroup(list[0].remove, list[0].size, stat) != Pass then 0
    else 1 + FirstBlocked(list[1..], stat)
  }

  /** How many files the groups remove. */
  function RemoveCount(list: seq<DuplicateFile>): nat {
    if |list| == 0 then 0 else RemoveCount(list[..|list| - 1]) + |list[|list| - 1].remove|
  }

  /** The bytes one group frees: each removed file counts the group's size. */
  function GroupBytes(d: DuplicateFile): nat {
    |d.remove| * d.size
  }

  /** How many bytes the groups free. */
  function RemoveBytes(list: seq<DuplicateFile>): nat {
    if |list| == 0 then 0 else RemoveBytes(list[..|list| - 1]) + GroupBytes(list[|list| - 1])
  }

  /** The files the groups remove, group by group. */
  function Removes(list: seq<DuplicateFile>): seq<Path> {
    if |list| == 0 then [] else Removes(list[..|list| - 1]) + list[|list| - 1].remove
  }

  /** The end of the removal stage: how it ended, what was deleted, and the two counters. */
  datatype Removal = Removal(exit: Exit, removed: seq<Path>, count: u64, freed: u64)

  /**
   What the removal stage does: groups are handled in order until one fails
   its check; every file of the groups before it is counted, and deleted
   unless this is a dry run.
   */
  function RemovalOf(list: seq<DuplicateFile>, stat: Path -> Result<u64>, actuallyRemove: bool): Removal {
    var j := FirstBlocked(list, stat);
    var done := list[..j];
    var exit :=
      if j == |list| then Completed
      else if CheckGroup(list[j].remove, list[j].size, stat) == StatFailed then Panicked
      else ExitCode(1);
    Removal(exit, if actuallyRemove then Removes(done) else [], Wrap64(RemoveCount(done)), Wrap64(RemoveBytes(done)))
  }

  /**
   A dry run reports the same counters and ends the same way as a real run,
   and removes nothing; a real run removes only files whose group passed its
   check, each of which `os.Stat` showed with the group's size.
   */
  lemma RemovalDryRun(list: seq<DuplicateFile>, stat: Path -> Result<u64>, p: Path)
    ensures var dry := RemovalOf(list, stat, false); var live := RemovalOf(list, stat, true);
      && dry.exit == live.exit && dry.count == live.count && dry.freed == live.freed
      && dry.removed == []
    ensures p in RemovalOf(list, stat, true).removed ==>
      exists i :: 0 <= i < FirstBlocked(list, stat) && p in list[i].remove && stat(p) == Ok(list[i].size)
  {
    var j := FirstBlocked(list, stat);
    if p in RemovalOf(list, stat, true).removed {
      var i := RemovesFrom(list[..j], p);
      assert list[..j][i] == list[i];
      assert CheckGroup(list[i].remove, list[i].size, stat) == Pass;
      var k :| 0 <= k < |list[i].remove| && list[i].remove[k] == p;
    }
  }

  /** A removed file comes from one of the groups. */
  lemma {:induction false} RemovesFrom(list: seq<DuplicateFile>, p: Path) returns (i: nat)
    requires p in Removes(list)
    ensures i < |list| && p in list[i].remove
    decreases |list|
  {
    var init := list[..|list| - 1];
    if p in list[|list| - 1].remove {
      i := |list| - 1;
    } else {
      assert p in Removes(init);
      i := RemovesFrom(init, p);
      assert list[i] == init[i];
    }
  }

  lemma RemoveTotalsStep(list: seq<DuplicateFile>, i: nat)
    requires i < |list|
    ensures RemoveCount(list[..i + 1]) == RemoveCount(list[..i]) + |list[i].remove|
    ensures RemoveBytes(list[..i + 1]) == RemoveBytes(list[..i]) + GroupBytes(list[i])
    ensures Removes(list[..i + 1]) == Removes(list[..i]) + list[i].remove
  {
    assert list[..i + 1][..i] == list[..i];
  }

  /** The pre-removal check over the files from `k` on equals the whole check when everything before `k` passed. */
  lemma CheckGroupFrom(remove: seq<Path>, size: u64, stat: Path -> Result<u64>, k: nat)
    requires k <= |remove| && forall i :: 0 <= i < k ==> stat(remove[i]) == Ok(size)
    ensures CheckGroup(remove, size, stat) == CheckGroup(remove[k..], size, stat)
    decreases k
  {
    if k > 0 {
      assert remove[1..][k - 1..] == remove[k..];
      CheckGroupFrom(remove[1..], size, stat, k - 1);
    }
  }

  /** main.go lines 230-242 for one group: `os.Stat` every file to be removed, stopping at the first failure. */
  method CheckFiles(remove: seq<Path>, size: u64, stat: Path -> Result<u64>) returns (c: Check)
    ensures c == CheckGroup(remove, size, stat)
  {
    var k := 0;
    while k < |remove|
      invariant 0 <= k <= |remove|
      invariant forall g :: 0 <= g < k ==> stat(remove[g]) == Ok(size)
    {
      match stat(remove[k]) {
        case Err(_) =>
          CheckGroupFrom(remove, size, stat, k);
          return StatFailed;
        case Ok(n) =>
          if n != size {
            CheckGroupFrom(remove, size, stat, k);
            return SizeMismatch;
          }
      }
      k := k + 1;
    }
    assert remove[k..] == [];
    CheckGroupFrom(remove, size, stat, k);
    c := Pass;
  }

  /**
   main.go lines 246-256 for one group: each file adds one to the count and
   the group's size to the freed bytes, and is deleted unless dry.
   */
  method RemoveGroup(d: DuplicateFile, count: u64, freed: u64, removed: seq<Path>, actuallyRemove: bool)
    returns (count': u64, freed': u64, removed': seq<Path>)
    ensures count' == Wrap64(count + |d.remove|)
    ensures freed' == Wrap64(freed + GroupBytes(d))
    ensures removed' == if actuallyRemove then removed + d.remove else removed
  {
    count', freed', removed' := count, freed, removed;
    ghost var c: nat, f: nat := count, freed;
    var k := 0;
    while k < |d.remove|
      invariant 0 <= k <= |d.remove|
      invariant c == count + k && f == freed + k * d.size
      invariant count' == Wrap64(c) && freed' == Wrap64(f)
      invariant removed' == if actuallyRemove then removed + d.remove[..k] else removed
    {
      WrapAdd(c, 1);
      WrapAdd(f, d.size);
      MulStep(k, d.size);
      count', c := Wrap64(count' + 1), c + 1;
      freed', f := Wrap64(freed' + d.size), f + d.size;
      if actuallyRemove {
        assert d.remove[..k + 1] == d.remove[..k] + [d.remove[k]];
        removed' := removed' + [d.remove[k]];
      }
      k := k + 1;
    }
    assert d.remove[..k] == d.remove;
  }

  lemma MulStep(k: nat, n: nat)
    ensures (k + 1) * n == k * n + n
  {
  }

  /**
   main.go lines 226-263: for every group, check all its files, then count
   (and, unless dry, delete) them; counters wrap at 2^64.
   */
  method RemoveDuplicates(list: seq<DuplicateFile>, stat: Path -> Result<u64>, actuallyRemove: bool)
    returns (out: Removal)
    ensures out == RemovalOf(list, stat, actuallyRemove)
  {
    var removed: seq<Path> := [];
    var count: u64, freed: u64 := 0, 0;
    var i := 0;
    while i < |list|
      invariant i <= FirstBlocked(list, stat)
      invariant Tallied(list, i, actuallyRemove, count, freed, removed)
    {
      var d := list[i];
      var check := CheckFiles(d.remove, d.size, stat);
      if check != Pass {
        var exit := if check == StatFailed then Panicked else ExitCode(1);
        RemovalAt(list, stat, actuallyRemove, i, count, freed, removed, exit);
        return Removal(exit, removed, count, freed);
      }
      var count', freed', removed' := RemoveGroup(d, count, freed, removed, actuallyRemove);
      TalliedStep(list, i, actuallyRemove, count, freed, removed, count', freed', removed');
      count, freed, removed := count', freed', removed';
      i := i + 1;
    }
    RemovalAt(list, stat, actuallyRemove, i, count, freed, removed, Completed);
    out := Removal(Completed, removed, count, freed);
  }

  /** The counters and the deleted files after the first `i` groups. */
  ghost predicate Tallied(list: seq<DuplicateFile>, i: nat, actuallyRemove: bool, count: u64, freed: u64, removed: seq<Path>) {
    && i <= |list|
    && count == Wrap64(RemoveCount(list[..i]))
    && freed == Wrap64(RemoveBytes(list[..i]))
    && removed == if actuallyRemove then Removes(list[..i]) else []
  }

  lemma TalliedStep(list: seq<DuplicateFile>, i: nat, actuallyRemove: bool, count: u64, freed: u64, removed: seq<Path>,
                    count': u64, freed': u64, removed': seq<Path>)
    requires i < |list| && Tallied(list, i, actuallyRemove, count, freed, removed)
    requires count' == Wrap64(count + |list[i].remove|) && freed' == Wrap64(freed + GroupBytes(list[i]))
    requires removed' == if actuallyRemove then removed + list[i].remove else removed
    ensures Tallied(list, i + 1, actuallyRemove, count', freed', removed')
  {
    RemoveTotalsStep(list, i);
    WrapAdd(RemoveCount(list[..i]), |list[i].remove|);
    WrapAdd(RemoveBytes(list[..i]), GroupBytes(list[i]));
  }

  /** The first failing group is the one the loop stops at. */
  lemma FirstBlockedAt(list: seq<DuplicateFile>, stat: Path -> Result<u64>, i: nat)
    requires i <= |list| && i <= FirstBlocked(list, stat)
    requires i < |list| ==> CheckGroup(list[i].remove, list[i].size, stat) != Pass
    ensures FirstBlocked(list, stat) == i
  {
  }

  /** The removal stage as it stands when the loop stops at group `i`. */
  lemma RemovalAt(list: seq<DuplicateFile>, stat: Path -> Result<u64>, actuallyRemove: bool, i: nat,
                  count: u64, freed: u64, removed: seq<Path>, exit: Exit)
    requires i <= |list| && i <= FirstBlocked(list, stat)
    requires i < |list| ==> CheckGroup(list[i].remove, list[i].size, stat) != Pass
    requires Tallied(list, i, actuallyRemove, count, freed, removed)
    requires exit == if i == |list| then Completed
                     else if CheckGroup(list[i].remove, list[i].size, stat) == StatFailed then Panicked
                     else ExitCode(1)
    ensures RemovalOf(list, stat, actuallyRemove) == Removal(exit, removed, count, freed)
  {
    FirstBlockedAt(list, stat, i);
  }

  /** Go's map iteration order for the duplicate map: every entry exactly once. */
  ghost predicate ValidOrder(order: DupeMap -> seq<(u64, CheckSum)>) {
    forall d :: Enumerates(order(d), DupeEntries(d))
  }

  /** `main`: the stages, then collecting and removing the duplicates. */
  method Run(dirs: seq<Path>, readSize: u64, env: Env, order: DupeMap -> seq<(u64, CheckSum)>, actuallyRemove: bool)
    returns (out: Removal)
    requires ValidEnv(env) && ValidOrder(order)
    ensures RunStages(dirs, readSize, env).Stopped? ==> out == Removal(RunStages(dirs, readSize, env).exit, [], 0, 0)
    ensures RunStages(dirs, readSize, env).Candidates? ==>
      var d := RunStages(dirs, readSize, env).dupes;
      out == RemovalOf(CollectDuplicates(d, order(d)), env.stat, actuallyRemove)
  {
    var stages := RunStages(dirs, readSize, env);
    match stages {
      case Stopped(exit) =>
        return Removal(exit, [], 0, 0);
      case Candidates(d, _) =>
        var list := CollectDuplicates(d, order(d));
        out := RemoveDuplicates(list, env.stat, actuallyRemove);
    }
  }
}
