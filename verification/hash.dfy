/**
 Whole-file hashing of the map-based pipeline (hash.go): `hashFile` reads a
 file through a fixed buffer into SHA-256, `hashWorker` prints the digest
 in hex, and `calculateHashes` groups every size bucket by that checksum,
 keeping the groups with more than one file.

 SHA-256 is a parameter `sha` from the byte stream written into the hasher
 to its digest. The buffer length is `MEBIBYTE` in the program, a constant
 defined outside the modelled files; here it is a positive parameter.
 */
module Hash {
  import opened Common
  import opened Grouping
  import opened FileSystem
  import opened Filters

  /** hash.go `checkSum`: a digest printed in hex. */
  type CheckSum = string

  /** hash.go `duplicateFile`: one group of equal files, the first kept. */
  datatype DuplicateFile = DuplicateFile(size: u64, checkSum: CheckSum, keep: Path, remove: seq<Path>)

  /** What `hashFile` returns: the digest and the read and write counters, or an error with the counters so far. */
  datatype HashFileResult =
    | Hashed(sum: Bytes, tr: u64, tw: u64)
    | HashFailed(error: Error, tr: u64, tw: u64)

  /* ------------------------------------------------- the stream hashFile writes */

  /**
   The bytes `hashFile` writes into the hasher from offset `pos` on when the
   buffer currently holds `buf`: each `Read` overwrites the front of the
   buffer and then the WHOLE buffer is written, so after a short read the
   tail of the previous chunk (or the initial zeros) is hashed too. A read
   is short at the end of the file, and on every read of a buffer longer
   than `MaxRead`.
   */
  function FeedFrom(content: Bytes, pos: nat, buf: Bytes): Bytes
    requires |buf| > 0
    decreases |content| - pos
  {
    if pos >= |content| then []
    else
      var chunk := content[pos..Min(pos + Min(|buf|, MaxRead), |content|)];
      var next := chunk + buf[|chunk|..];
      next + FeedFrom(content, pos + |chunk|, next)
  }

  /** The stream written for a file, starting from a zeroed buffer of `bufLen` bytes. */
  function Fed(content: Bytes, bufLen: nat): Bytes
    requires bufLen > 0
  {
    FeedFrom(content, 0, Zeros(bufLen))
  }

  /**
   With a buffer no longer than `MaxRead` every read but the last fills it,
   so the stream starts with the rest of the file and runs past its end by
   less than one buffer.
   */
  lemma {:induction false} FeedFromExtends(content: Bytes, pos: nat, buf: Bytes)
    requires 0 < |buf| <= MaxRead && pos <= |content|
    ensures |FeedFrom(content, pos, buf)| >= |content| - pos
    ensures |FeedFrom(content, pos, buf)| < |content| - pos + |buf|
    ensures FeedFrom(content, pos, buf)[..|content| - pos] == content[pos..]
    decreases |content| - pos
  {
    if pos < |content| {
      var chunk := content[pos..Min(pos + |buf|, |content|)];
      var next := chunk + buf[|chunk|..];
      var rest := FeedFrom(content, pos + |chunk|, next);
      assert FeedFrom(content, pos, buf) == next + rest;
      FeedFromExtends(content, pos + |chunk|, next);
      ExtendsStep(content, pos, |buf|, chunk, next, rest);
    }
  }

  /** One chunk of the stream followed by the rest keeps the three facts of `FeedFromExtends`. */
  lemma ExtendsStep(content: Bytes, pos: nat, bufLen: nat, chunk: Bytes, next: Bytes, rest: Bytes)
    requires pos < |content| && chunk == content[pos..Min(pos + bufLen, |content|)]
    requires |next| == bufLen && next[..|chunk|] == chunk
    requires |rest| >= |content| - pos - |chunk| && |rest| < |content| - pos - |chunk| + bufLen
    requires rest[..|content| - pos - |chunk|] == content[pos + |chunk|..]
    requires |chunk| < bufLen ==> rest == []
    ensures |next + rest| >= |content| - pos
    ensures |next + rest| < |content| - pos + bufLen
    ensures (next + rest)[..|content| - pos] == content[pos..]
  {
    if |chunk| == bufLen {
      assert next == chunk;
      FullChunk(content, pos, chunk, rest);
    } else {
      LastChunk(content, pos, chunk, next, rest);
    }
  }

  /** A full read is followed by the stream of the rest of the file. */
  lemma FullChunk(content: Bytes, pos: nat, chunk: Bytes, rest: Bytes)
    requires pos + |chunk| <= |content| && chunk == content[pos..pos + |chunk|]
    requires |rest| >= |content| - pos - |chunk| && rest[..|content| - pos - |chunk|] == content[pos + |chunk|..]
    ensures (chunk + rest)[..|content| - pos] == content[pos..]
  {
    assert (chunk + rest)[..|content| - pos] == chunk + rest[..|content| - pos - |chunk|];
    assert content[pos..] == chunk + content[pos + |chunk|..];
  }

  /** A short read reaches the end: the buffer written holds the rest of the file first. */
  lemma LastChunk(content: Bytes, pos: nat, chunk: Bytes, next: Bytes, rest: Bytes)
    requires pos + |chunk| == |content| && chunk == content[pos..]
    requires |next| >= |chunk| && next[..|chunk|] == chunk && rest == []
    ensures (next + rest)[..|content| - pos] == content[pos..]
  {
    assert next + rest == next;
  }

  /**
   With a buffer no longer than `MaxRead` (`MEBIBYTE` is) the whole file is
   a prefix of the stream, which is less than one buffer longer.
   */
  lemma FedExtends(content: Bytes, bufLen: nat)
    requires 0 < bufLen <= MaxRead
    ensures |content| <= |Fed(content, bufLen)| < |content| + bufLen
    ensures Fed(content, bufLen)[..|content|] == content
  {
    FeedFromExtends(content, 0, Zeros(bufLen));
  }

  /**
   Two files of the same length are read in chunks of the same lengths, and
   each chunk heads the buffer written after it: equal streams from an
   offset mean the files agree from that offset on.
   */
  lemma {:induction false} FeedFromSeparates(c1: Bytes, c2: Bytes, pos: nat, b1: Bytes, b2: Bytes)
    requires |c1| == |c2| && pos <= |c1| && |b1| == |b2| > 0
    requires FeedFrom(c1, pos, b1) == FeedFrom(c2, pos, b2)
    ensures c1[pos..] == c2[pos..]
    decreases |c1| - pos
  {
    if pos < |c1| {
      var end := Min(pos + Min(|b1|, MaxRead), |c1|);
      var ch1, ch2 := c1[pos..end], c2[pos..end];
      var n1, n2 := ch1 + b1[|ch1|..], ch2 + b2[|ch2|..];
      var r1, r2 := FeedFrom(c1, end, n1), FeedFrom(c2, end, n2);
      assert FeedFrom(c1, pos, b1) == n1 + r1 && FeedFrom(c2, pos, b2) == n2 + r2;
      assert n1 == (n1 + r1)[..|b1|] && n2 == (n2 + r2)[..|b1|];
      assert r1 == (n1 + r1)[|b1|..] && r2 == (n2 + r2)[|b1|..];
      assert ch1 == n1[..|ch1|] && ch2 == n2[..|ch2|];
      FeedFromSeparates(c1, c2, end, n1, n2);
      assert c1[pos..] == ch1 + c1[end..] && c2[pos..] == ch2 + c2[end..];
    }
  }

  /**
   The stale bytes are harmless for deduplication: between files of the same
   length, equal streams mean equal contents, whatever the buffer length.
   */
  lemma FedSeparates(c1: Bytes, c2: Bytes, bufLen: nat)
    requires bufLen > 0 && |c1| == |c2|
    ensures Fed(c1, bufLen) == Fed(c2, bufLen) <==> c1 == c2
  {
    if Fed(c1, bufLen) == Fed(c2, bufLen) {
      FeedFromSeparates(c1, c2, 0, Zeros(bufLen), Zeros(bufLen));
      assert c1 == c1[0..] && c2 == c2[0..];
    }
  }

  /**
   A non-empty file shorter than the buffer, and short enough for one read,
   is hashed followed by zero bytes up to the buffer length.
   */
  lemma FedShortFile(content: Bytes, bufLen: nat)
    requires 0 < |content| < bufLen && |content| <= MaxRead
    ensures Fed(content, bufLen) == content + Zeros(bufLen - |content|)
  {
    var buf := Zeros(bufLen);
    var chunk := content[0..Min(Min(|buf|, MaxRead), |content|)];
    assert chunk == content;
    assert FeedFrom(content, |content|, chunk + buf[|chunk|..]) == [];
    assert buf[|chunk|..] == Zeros(bufLen - |content|);
  }

  /** A one-byte file with a two-byte buffer is hashed as that byte and a zero. */
  lemma FedExample()
    ensures Fed([7], 2) == [7, 0]
    ensures Fed([7], 2) != [7]
  {
    FedShortFile([7], 2);
    assert Zeros(1) == [0];
  }

  /**
   Across different lengths the stale bytes do merge files: with a two-byte
   buffer the one-byte file `[7]` and the two-byte file `[7, 0]` feed the
   hasher the same stream, so they get the same digest whatever the hash.
   */
  lemma FedMergesLengths()
    ensures Fed([7], 2) == Fed([7, 0], 2)
  {
    FedExample();
    var c: Bytes := [7, 0];
    assert FeedFrom(c, 2, c) == [];
    assert Zeros(2)[2..] == [];
    assert c[0..Min(Min(2, MaxRead), 2)] == c;
  }

  /** hash.go `hashFile` as written: the closed form of what the loop computes. */
  function HashFileAsWritten(file: FileHandle, bufLen: nat, sha: Bytes -> Bytes): HashFileResult
    requires bufLen > 0
  {
    match file
    case Unopenable(e) => HashFailed(e, 0, 0)
    case Readable(content, readsFail) =>
      if readsFail then HashFailed(IoFailure, 0, 0)
      else Hashed(sha(Fed(content, bufLen)), Wrap64(|content|), Wrap64(|Fed(content, bufLen)|))
  }

  /**
   hash.go `hashFile`: read into a `bufLen`-byte buffer until `io.EOF`,
   writing the whole buffer into the hasher after every read, counting the
   bytes read in `tr` and the bytes written in `tw` (both wrap at 2^64).
   */
  method HashFile(file: FileHandle, bufLen: nat, sha: Bytes -> Bytes) returns (out: HashFileResult)
    requires bufLen > 0
    ensures out == HashFileAsWritten(file, bufLen, sha)
    ensures file.Readable? && !file.readsFail && |file.content| + bufLen <= 0x1_0000_0000_0000_0000 ==>
      out.tr == |file.content|
    ensures file.Readable? && !file.readsFail && |file.content| + bufLen <= 0x1_0000_0000_0000_0000 && bufLen <= MaxRead ==>
      out.tr <= out.tw < out.tr + bufLen
  {
    match file {
      case Unopenable(e) =>
        return HashFailed(e, 0, 0);
      case Readable(content, readsFail) =>
        var buf := Zeros(bufLen);
        var pos := 0;
        var fed: Bytes := [];
        var tr: u64, tw: u64 := 0, 0;
        while true
          invariant Feeding(content, bufLen, pos, buf, fed)
          invariant Counted(tr, tw, pos, |fed|)
          invariant readsFail ==> pos == 0 && fed == []
          decreases |content| - pos
        {
          var reply := ReadAt(content, pos, |buf|, readsFail);
          match reply {
            case Failed(e) =>
              if e == EndOfFile {
                break;
              }
              return HashFailed(e, tr, tw);
            case Data(bs) =>
              var next := bs + buf[|bs|..];
              FeedingStep(content, bufLen, pos, buf, fed, bs);
              CountedStep(tr, tw, pos, |fed|, |bs|, |next|);
              tr := Wrap64(tr + |bs|);
              tw := Wrap64(tw + |next|);
              fed := fed + next;
              buf := next;
              pos := pos + |bs|;
          }
        }
        FeedingDone(content, bufLen, pos, buf, fed);
        return Hashed(sha(fed), tr, tw);
    }
  }

  /**
   The state of `hashFile`'s loop: `fed` has been written, the offset is
   `pos`, the buffer holds `buf`, and what is still to be written completes
   the stream, and at least as many bytes have been written as read. With a
   buffer no longer than `MaxRead` every read so far filled the buffer
   unless it was the last.
   */
  ghost predicate Feeding(content: Bytes, bufLen: nat, pos: nat, buf: Bytes, fed: Bytes) {
    && bufLen > 0 && pos <= |content| && |buf| == bufLen
    && fed + FeedFrom(content, pos, buf) == Fed(content, bufLen)
    && pos <= |fed|
    && (bufLen <= MaxRead ==> (pos < |content| ==> |fed| == pos) && |fed| < pos + bufLen)
  }

  /** The two counters of `hashFile`, wrapped at 2^64, against the bytes read and written. */
  ghost predicate Counted(tr: u64, tw: u64, read: nat, written: nat) {
    tr == Wrap64(read) && tw == Wrap64(written)
  }

  lemma CountedStep(tr: u64, tw: u64, read: nat, written: nat, a: nat, b: nat)
    requires Counted(tr, tw, read, written)
    ensures Counted(Wrap64(tr + a), Wrap64(tw + b), read + a, written + b)
  {
    WrapAdd(read, a);
    WrapAdd(written, b);
  }

  /** A successful read of `bs` keeps the loop state. */
  lemma FeedingStep(content: Bytes, bufLen: nat, pos: nat, buf: Bytes, fed: Bytes, bs: Bytes)
    requires Feeding(content, bufLen, pos, buf, fed)
    requires ReadAt(content, pos, bufLen, false) == Data(bs)
    ensures Feeding(content, bufLen, pos + |bs|, bs + buf[|bs|..], fed + (bs + buf[|bs|..]))
  {
    var next := bs + buf[|bs|..];
    FeedFromStep(content, pos, buf, bs);
    Associative(fed, next, FeedFrom(content, pos + |bs|, next));
  }

  /** At the end of the file everything has been written. */
  lemma FeedingDone(content: Bytes, bufLen: nat, pos: nat, buf: Bytes, fed: Bytes)
    requires Feeding(content, bufLen, pos, buf, fed) && pos == |content|
    ensures fed == Fed(content, bufLen)
    ensures |content| <= |fed|
    ensures bufLen <= MaxRead ==> |fed| < |content| + bufLen
  {
  }

  /** One read of `bs` at `pos`, as `ReadAt` returns it, is one step of the stream. */
  lemma FeedFromStep(content: Bytes, pos: nat, buf: Bytes, bs: Bytes)
    requires 0 < |bs| <= Min(|buf|, MaxRead) && pos + |bs| <= |content|
    requires bs == content[pos..pos + |bs|]
    requires |bs| == Min(|buf|, MaxRead) || pos + |bs| == |content|
    ensures FeedFrom(content, pos, buf) == (bs + buf[|bs|..]) + FeedFrom(content, pos + |bs|, bs + buf[|bs|..])
  {
    assert content[pos..Min(pos + Min(|buf|, MaxRead), |content|)] == bs;
  }

  lemma Associative<T>(a: seq<T>, b: seq<T>, c: seq<T>)
    ensures (a + b) + c == a + (b + c)
  {
  }

  /**
   What `hashFile` evidently means to compute: the digest of the file
   itself, as it would with `h.Write(buf[0:rn])`; both counters are the
   file length.
   */
  function HashFileIntended(file: FileHandle, sha: Bytes -> Bytes): HashFileResult {
    match file
    case Unopenable(e) => HashFailed(e, 0, 0)
    case Readable(content, readsFail) =>
      if readsFail then HashFailed(IoFailure, 0, 0)
      else Hashed(sha(content), Wrap64(|content|), Wrap64(|content|))
  }

  /**
   The same loop writing only the bytes read, `h.Write(buf[0:rn])`: the
   digest is that of the file, and as many bytes are written as read.
   */
  method HashFileFixed(file: FileHandle, bufLen: nat, sha: Bytes -> Bytes) returns (out: HashFileResult)
    requires bufLen > 0
    ensures out == HashFileIntended(file, sha)
    ensures out.Hashed? ==> out.sum == sha(file.content) && out.tw == out.tr
  {
    match file {
      case Unopenable(e) =>
        return HashFailed(e, 0, 0);
      case Readable(content, readsFail) =>
        var pos := 0;
        var fed: Bytes := [];
        var tr: u64, tw: u64 := 0, 0;
        while true
          invariant pos <= |content|
          invariant fed == content[..pos]
          invariant Counted(tr, tw, pos, |fed|)
          invariant readsFail ==> pos == 0
          decreases |content| - pos
        {
          var reply := ReadAt(content, pos, bufLen, readsFail);
          match reply {
            case Failed(e) =>
              if e == EndOfFile {
                break;
              }
              return HashFailed(e, tr, tw);
            case Data(bs) =>
              CountedStep(tr, tw, pos, |fed|, |bs|, |bs|);
              tr := Wrap64(tr + |bs|);
              fed := fed + bs;
              tw := Wrap64(tw + |bs|);
              pos := pos + |bs|;
          }
        }
        assert fed == content;
        return Hashed(sha(fed), tr, tw);
    }
  }

  /* ------------------------------------------------------------ hashWorker */

  /** hash.go `hashWorkerResult`. */
  datatype HashResult = HashResult(filename: Path, checksum: CheckSum, readBytes: u64)

  /**
   hash.go `hashWorker` for one job: a failed hash panics (None); otherwise
   the digest is printed in hex and the read counter is passed on.
   */
  function HashWorker(hashingRefFn: Path -> HashFileResult, job: Path): (r: Option<HashResult>)
    ensures r.None? <==> hashingRefFn(job).HashFailed?
    ensures r.Some? ==> r.value.filename == job && r.value.readBytes == hashingRefFn(job).tr
    ensures r.Some? ==> r.value.checksum == Hex(hashingRefFn(job).sum)
  {
    match hashingRefFn(job)
    case HashFailed(_, _, _) => None
    case Hashed(b, tr, _) => Some(HashResult(job, Hex(b), tr))
  }

  /** The checksum a path's result carries; only consulted when hashing succeeded. */
  function HashKey(hashingRefFn: Path -> HashFileResult): Path -> CheckSum {
    p => match HashWorker(hashingRefFn, p) case Some(res) => res.checksum case None => ""
  }

  /** Two paths that hash successfully get the same checksum exactly when their digests are equal. */
  lemma HashKeyMatchesDigest(hashingRefFn: Path -> HashFileResult, p: Path, q: Path)
    requires hashingRefFn(p).Hashed? && hashingRefFn(q).Hashed?
    ensures HashKey(hashingRefFn)(p) == HashKey(hashingRefFn)(q) <==> hashingRefFn(p).sum == hashingRefFn(q).sum
  {
    HexInjective(hashingRefFn(p).sum, hashingRefFn(q).sum);
  }

  /* ------------------------------------------------------- calculateHashes */

  /** hash.go's result, `map[uint64]map[checkSum][]string`. */
  type DupeMap = map<u64, map<CheckSum, seq<Path>>>

  /** Hashing some path of `m` fails. */
  predicate SomeHashFails(m: SizeMap, hashingRefFn: Path -> HashFileResult) {
    exists k, i :: k in m && 0 <= i < |m[k]| && hashingRefFn(m[k][i]).HashFailed?
  }

  /** The checksum groups of one bucket that hold more than one path, each in arrival order. */
  function Duplicates(vs: seq<Path>, key: Path -> CheckSum): (g: map<CheckSum, seq<Path>>)
    ensures forall c :: c in g <==> |Having(vs, key, c)| > 1
    ensures forall c :: c in g ==> g[c] == Having(vs, key, c)
  {
    var h := Collect(vs, key);
    map c | c in h && |h[c]| > 1 :: h[c]
  }

  /**
   hash.go `calculateHashes`: every bucket is hashed and grouped by
   checksum; a size gets an entry only when at least one of its groups holds
   more than one file, and then the entry holds exactly those groups.
   */
  function CalculateHashes(m: SizeMap, hashingRefFn: Path -> HashFileResult,
                           arrive: (u64, seq<Path>) -> seq<Path>): (r: Outcome<DupeMap>)
    requires PermutesBuckets(arrive)
    ensures r.Panic? <==> SomeHashFails(m, hashingRefFn)
    ensures r.Done? ==> forall s :: s in r.value <==> s in m && Duplicates(arrive(s, m[s]), HashKey(hashingRefFn)) != map[]
    ensures r.Done? ==> forall s :: s in r.value ==> r.value[s] == Duplicates(arrive(s, m[s]), HashKey(hashingRefFn))
  {
    if SomeHashFails(m, hashingRefFn) then Panic
    else
      var key := HashKey(hashingRefFn);
      Done(map s | s in m && Duplicates(arrive(s, m[s]), key) != map[] :: Duplicates(arrive(s, m[s]), key))
  }

  /**
   Every reported group holds at least two paths of its size, all with
   the group's checksum, and is exactly (up to order) the paths of that size
   with that checksum.
   */
  lemma CalculateHashesGroups(m: SizeMap, hashingRefFn: Path -> HashFileResult,
                              arrive: (u64, seq<Path>) -> seq<Path>, s: u64, c: CheckSum)
    requires PermutesBuckets(arrive)
    requires CalculateHashes(m, hashingRefFn, arrive).Done?
    requires s in CalculateHashes(m, hashingRefFn, arrive).value
    requires c in CalculateHashes(m, hashingRefFn, arrive).value[s]
    ensures var g := CalculateHashes(m, hashingRefFn, arrive).value[s][c];
      && s in m
      && |g| >= 2
      && multiset(g) == multiset(Having(m[s], HashKey(hashingRefFn), c))
      && forall p :: p in g ==> p in m[s] && HashKey(hashingRefFn)(p) == c
  {
    var key := HashKey(hashingRefFn);
    var g := CalculateHashes(m, hashingRefFn, arrive).value[s][c];
    HavingPermutation(arrive(s, m[s]), m[s], key, c);
    forall p | p in g
      ensures p in m[s] && key(p) == c
    {
      assert p in multiset(g);
      HavingCount(m[s], key, c, p);
    }
  }

  /**
   Every path that shares its checksum with another path of its size ends
   up in its size's group for that checksum, and no other path does.
   */
  lemma CalculateHashesCovers(m: SizeMap, hashingRefFn: Path -> HashFileResult,
                              arrive: (u64, seq<Path>) -> seq<Path>, s: u64, p: Path)
    requires PermutesBuckets(arrive)
    requires CalculateHashes(m, hashingRefFn, arrive).Done?
    requires s in m
    ensures var r, c := CalculateHashes(m, hashingRefFn, arrive).value, HashKey(hashingRefFn)(p);
      (p in m[s] && SharesKey(m[s], HashKey(hashingRefFn), p)) <==> (s in r && c in r[s] && p in r[s][c])
  {
    var key := HashKey(hashingRefFn);
    var r := CalculateHashes(m, hashingRefFn, arrive).value;
    var vs := arrive(s, m[s]);
    var c := key(p);
    HavingPermutation(vs, m[s], key, c);
    HavingCount(vs, key, c, p);
    if p in m[s] && SharesKey(m[s], key, p) {
      assert c in Duplicates(vs, key);
      assert p in multiset(Having(vs, key, c));
    }
    if s in r && c in r[s] && p in r[s][c] {
      CalculateHashesGroups(m, hashingRefFn, arrive, s, c);
    }
  }

  /** Two paths of one group were both hashed, to the same digest. */
  lemma CalculateHashesSameDigest(m: SizeMap, hashingRefFn: Path -> HashFileResult,
                                  arrive: (u64, seq<Path>) -> seq<Path>, s: u64, c: CheckSum, p: Path, q: Path)
    requires PermutesBuckets(arrive)
    requires CalculateHashes(m, hashingRefFn, arrive).Done?
    requires var r := CalculateHashes(m, hashingRefFn, arrive).value; s in r && c in r[s] && p in r[s][c] && q in r[s][c]
    ensures hashingRefFn(p).Hashed? && hashingRefFn(q).Hashed?
    ensures hashingRefFn(p).sum == hashingRefFn(q).sum
  {
    CalculateHashesGroups(m, hashingRefFn, arrive, s, c);
    var i :| 0 <= i < |m[s]| && m[s][i] == p;
    var j :| 0 <= j < |m[s]| && m[s][j] == q;
    assert !hashingRefFn(m[s][i]).HashFailed? && !hashingRefFn(m[s][j]).HashFailed?;
    HashKeyMatchesDigest(hashingRefFn, p, q);
  }

  /** The groups do not depend on the order results arrive in, up to the order inside each group. */
  lemma CalculateHashesOrderFree(m: SizeMap, hashingRefFn: Path -> HashFileResult,
                                 arrive1: (u64, seq<Path>) -> seq<Path>, arrive2: (u64, seq<Path>) -> seq<Path>,
                                 s: u64, c: CheckSum)
    requires PermutesBuckets(arrive1) && PermutesBuckets(arrive2)
    requires CalculateHashes(m, hashingRefFn, arrive1).Done?
    ensures CalculateHashes(m, hashingRefFn, arrive2).Done?
    ensures var r1, r2 := CalculateHashes(m, hashingRefFn, arrive1).value, CalculateHashes(m, hashingRefFn, arrive2).value;
      && (s in r1 && c in r1[s] <==> s in r2 && c in r2[s])
      && (s in r1 && c in r1[s] ==> multiset(r1[s][c]) == multiset(r2[s][c]))
  {
    if s in m {
      var key := HashKey(hashingRefFn);
      HavingPermutation(arrive1(s, m[s]), m[s], key, c);
      HavingPermutation(arrive2(s, m[s]), m[s], key, c);
      var d1, d2 := Duplicates(arrive1(s, m[s]), key), Duplicates(arrive2(s, m[s]), key);
      assert c in d1 <==> c in d2;
    }
  }

  /**
   hash.go lines 125-134: ten hash workers up to `mebibyte`, two from
   `gibibyte` on, four in between.
   */
  function HashWorkerCount(size: u64, mebibyte: u64, gibibyte: u64): (n: nat)
    ensures n == 2 || n == 4 || n == 10
    ensures size >= gibibyte ==> n == 2
    ensures mebibyte < gibibyte ==> (n == 10 <==> size <= mebibyte)
    ensures mebibyte < gibibyte ==> (n == 4 <==> mebibyte < size < gibibyte)
  {
    var n := if size <= mebibyte then 10 else 4;
    if size >= gibibyte then 2 else n
  }

  /** Larger files never get more hash workers. */
  lemma HashWorkerCountMonotone(s1: u64, s2: u64, mebibyte: u64, gibibyte: u64)
    requires s1 <= s2 && mebibyte < gibibyte
    ensures HashWorkerCount(s2, mebibyte, gibibyte) <= HashWorkerCount(s1, mebibyte, gibibyte)
  {
  }
}
