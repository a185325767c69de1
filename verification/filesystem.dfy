/**
 Directory listing into size buckets and the two fixed-size readers of
 filesystem.go. The disk is abstract: a directory is a tree of entries and
 an opened file is its current content and whether its reads fail.
 */
module FileSystem {
  import opened Common
  import opened Grouping

  /* ---------------------------------------------------------------- files */

  /** What `os.Open(path)` yields for a regular file. */
  datatype FileHandle =
    | Unopenable(openError: Error)
    | Readable(content: Bytes, readsFail: bool)

  /**
   The most one `Read` on an `*os.File` returns: Go's runtime cuts a larger
   request down to `maxRW`, 1 GiB (package `internal/poll`), and the caller
   gets a short read.
   */
  const MaxRead: nat := 0x4000_0000

  /** The outcome of one `f.Read(buf)`. */
  datatype ReadReply = Data(bytes: Bytes) | Failed(error: Error)

  /**
   One `Read` with a buffer of `want` bytes at offset `pos`. A zero-length
   buffer returns nothing and no error; otherwise a failing file reports an
   I/O error, at or past the end the call returns `io.EOF`, and else it
   returns the next min(want, `MaxRead`, remaining) bytes.
   */
  function ReadAt(content: Bytes, pos: nat, want: nat, readsFail: bool): (r: ReadReply)
    ensures want == 0 ==> r == Data([])
    ensures r.Data? && want > 0 ==> 0 < |r.bytes| <= Min(want, MaxRead) && pos + |r.bytes| <= |content|
    ensures r.Data? && want > 0 ==> r.bytes == content[pos..pos + |r.bytes|]
    ensures r.Data? && want > 0 ==> |r.bytes| == Min(want, MaxRead) || pos + |r.bytes| == |content|
    ensures r.Failed? <==> want > 0 && (readsFail || pos >= |content|)
    ensures r.Failed? && !readsFail ==> r.error == EndOfFile
    ensures r.Failed? && readsFail ==> r.error != EndOfFile
  {
    if want == 0 then Data([])
    else if readsFail then Failed(IoFailure)
    else if pos >= |content| then Failed(EndOfFile)
    else Data(content[pos..Min(pos + Min(want, MaxRead), |content|)])
  }

  /**
   The byte at `i` of a zeroed buffer into which `content[start..]` was read
   once: one `Read` fills at most `MaxRead` bytes.
   */
  function Padded(content: Bytes, start: nat, i: nat): byte {
    if i < MaxRead && start + i < |content| then content[start + i] else 0
  }

  /**
   filesystem.go `GetFirstBytes`: one `Read` into a fresh `size`-byte
   buffer, and the whole buffer is returned, so a short file comes back
   followed by zero bytes, and so does a file past its first `MaxRead`
   bytes when `size` is larger than that. Open and read errors (including `io.EOF` on an
   empty file) are returned with no buffer.
   */
  function GetFirstBytes(file: FileHandle, size: u64): (r: Result<Bytes>)
    ensures file.Unopenable? ==> r == Err(file.openError)
    ensures file.Readable? && size > 0 ==>
      (r.Err? <==> file.readsFail || |file.content| == 0)
    ensures r.Ok? ==> |r.value| == size
    ensures r.Ok? ==> forall i :: 0 <= i < size ==> r.value[i] == Padded(file.content, 0, i)
  {
    match file
    case Unopenable(e) => Err(e)
    case Readable(content, readsFail) =>
      match ReadAt(content, 0, size, readsFail)
      case Failed(e) => Err(e)
      case Data(bs) => Ok(bs + Zeros(size - |bs|))
  }

  /**
   Where `f.Seek(-int64(size), io.SeekEnd)` leaves the offset of a file of
   `length` bytes: a target before the start is refused and the offset
   stays at 0; the refusal is ignored by the caller.
   */
  function SeekFromEnd(length: nat, size: u64): (pos: nat)
    ensures size < 0x8000_0000_0000_0000 ==> pos == Max(0, length - size)
  {
    var target := length + Neg64(ToInt64(size));
    if target < 0 then 0 else target
  }

  /**
   filesystem.go `GetLastBytes`: seek `size` bytes before the end, then one
   `Read` into a fresh `size`-byte buffer; the whole buffer is returned.
   A file shorter than `size` is read from its start and zero-padded; with
   `size` above `MaxRead` only the first `MaxRead` bytes after the seek are
   read.
   */
  function GetLastBytes(file: FileHandle, size: u64): (r: Result<Bytes>)
    ensures file.Unopenable? ==> r == Err(file.openError)
    ensures file.Readable? && 0 < size < 0x8000_0000_0000_0000 ==>
      (r.Err? <==> file.readsFail || |file.content| == 0)
    ensures r.Ok? ==> |r.value| == size
    ensures r.Ok? && size < 0x8000_0000_0000_0000 ==>
      forall i :: 0 <= i < size ==> r.value[i] == Padded(file.content, Max(0, |file.content| - size), i)
  {
    match file
    case Unopenable(e) => Err(e)
    case Readable(content, readsFail) =>
      match ReadAt(content, SeekFromEnd(|content|, size), size, readsFail)
      case Failed(e) => Err(e)
      case Data(bs) => Ok(bs + Zeros(size - |bs|))
  }

  /**
   Within one size bucket the zero padding cannot make different files look
   alike: for two files of the same length, the first-bytes buffers are
   equal exactly when the files agree on the bytes the one read reaches,
   the first min(size, `MaxRead`, length); a file no longer than that is
   compared in full.
   */
  lemma FirstBytesSeparate(c1: Bytes, c2: Bytes, size: u64)
    requires |c1| == |c2| > 0 && size > 0
    ensures GetFirstBytes(Readable(c1, false), size).Ok?
    ensures GetFirstBytes(Readable(c2, false), size).Ok?
    ensures GetFirstBytes(Readable(c1, false), size) == GetFirstBytes(Readable(c2, false), size)
        <==> c1[..Min(Min(size, MaxRead), |c1|)] == c2[..Min(Min(size, MaxRead), |c2|)]
    ensures |c1| <= Min(size, MaxRead) ==>
      (GetFirstBytes(Readable(c1, false), size) == GetFirstBytes(Readable(c2, false), size) <==> c1 == c2)
  {
    var b1, b2 := GetFirstBytes(Readable(c1, false), size).value, GetFirstBytes(Readable(c2, false), size).value;
    var n := Min(Min(size, MaxRead), |c1|);
    if b1 == b2 {
      forall i | 0 <= i < n ensures c1[i] == c2[i] {
        assert b1[i] == Padded(c1, 0, i) && b2[i] == Padded(c2, 0, i);
      }
    }
    if c1[..n] == c2[..n] {
      forall i | 0 <= i < size ensures b1[i] == b2[i] {
        if i < n {
          assert c1[..n][i] == c2[..n][i];
        }
      }
    }
    if |c1| <= Min(size, MaxRead) {
      assert c1[..n] == c1 && c2[..n] == c2;
    }
  }

  /**
   The same for the last-bytes buffers: equal exactly when the two files
   agree on the bytes the one read after the seek reaches, which are their
   last min(size, length) bytes whenever `size` is at most `MaxRead`.
   */
  lemma LastBytesSeparate(c1: Bytes, c2: Bytes, size: u64)
    requires |c1| == |c2| > 0 && 0 < size < 0x8000_0000_0000_0000
    ensures GetLastBytes(Readable(c1, false), size).Ok?
    ensures GetLastBytes(Readable(c2, false), size).Ok?
    ensures var start := Max(0, |c1| - size);
      (GetLastBytes(Readable(c1, false), size) == GetLastBytes(Readable(c2, false), size)
      <==> c1[start..Min(start + MaxRead, |c1|)] == c2[start..Min(start + MaxRead, |c2|)])
    ensures size <= MaxRead ==>
      (GetLastBytes(Readable(c1, false), size) == GetLastBytes(Readable(c2, false), size)
      <==> c1[Max(0, |c1| - size)..] == c2[Max(0, |c2| - size)..])
  {
    var b1, b2 := GetLastBytes(Readable(c1, false), size).value, GetLastBytes(Readable(c2, false), size).value;
    var start := Max(0, |c1| - size);
    var end := Min(start + MaxRead, |c1|);
    if b1 == b2 {
      forall i | 0 <= i < end - start ensures c1[start..end][i] == c2[start..end][i] {
        assert b1[i] == Padded(c1, start, i) && b2[i] == Padded(c2, start, i);
      }
    }
    if c1[start..end] == c2[start..end] {
      forall i | 0 <= i < size ensures b1[i] == b2[i] {
        if i < MaxRead && start + i < |c1| {
          assert c1[start..end][i] == c2[start..end][i];
        }
      }
    }
    if size <= MaxRead {
      assert end == |c1|;
    }
  }

  /* ----------------------------------------------------------- directories */

  /** One entry of a directory as `Readdir` reports it (symbolic links are not followed). */
  datatype Entry =
    | RegularFile(name: string, size: u64)
    | Directory(name: string, listing: Listing)
    | OtherEntry(name: string)

  /**
   What opening and reading a directory yields: its entries in directory
   order, or the error of `os.Open` or of `Readdir` (both are handled alike).
   */
  datatype Listing = Listed(entries: seq<Entry>) | Unlistable(error: Error)

  /** `filepath.Join(dir, name)`, without the lexical clean-up. */
  function Join(dir: Path, name: string): Path {
    dir + "/" + name
  }

  /**
   filesystem.go `listFiles` on `root`: a permission error skips the
   directory, any other error is returned, and a listing is folded entry by
   entry into the size map.
   */
  function ListFiles(fileMap: SizeMap, root: Path, listing: Listing): (r: Result<SizeMap>)
    ensures r.Err? <==> listing.Unlistable? && listing.error != PermissionDenied
    ensures listing.Unlistable? && listing.error == PermissionDenied ==> r == Ok(fileMap)
    decreases listing, 1
  {
    match listing
    case Unlistable(e) => if e == PermissionDenied then Ok(fileMap) else Err(e)
    case Listed(entries) => Ok(ListEntries(fileMap, root, entries))
  }

  function ListEntries(fileMap: SizeMap, root: Path, entries: seq<Entry>): SizeMap
    decreases entries, 0
  {
    if |entries| == 0 then fileMap
    else AddEntry(ListEntries(fileMap, root, entries[..|entries| - 1]), root, entries[|entries| - 1])
  }

  /**
   One loop iteration of `listFiles`: an empty regular file is skipped, a
   non-empty one is appended under its size, a subdirectory is listed
   recursively and its error ignored, anything else is skipped.
   */
  function AddEntry(fileMap: SizeMap, root: Path, entry: Entry): SizeMap
    decreases entry, 2
  {
    match entry
    case RegularFile(name, size) =>
      if size == 0 then fileMap else Append(fileMap, size, Join(root, name))
    case Directory(name, listing) =>
      (match ListFiles(fileMap, Join(root, name), listing)
       case Ok(m) => m
       case Err(_) => fileMap)
    case OtherEntry(_) => fileMap
  }

  /** A regular file the traversal records: its size and its joined path. */
  datatype Found = Found(size: u64, path: Path)

  function SizeOf(f: Found): u64 {
    f.size
  }

  function PathOf(f: Found): Path {
    f.path
  }

  function Paths(fs: seq<Found>): (ps: seq<Path>)
    ensures |ps| == |fs| && forall i :: 0 <= i < |fs| ==> ps[i] == fs[i].path
  {
    if |fs| == 0 then [] else Paths(fs[..|fs| - 1]) + [fs[|fs| - 1].path]
  }

  /**
   Reference traversal: the non-empty regular files reachable from `root`
   through listable directories, in the order `listFiles` visits them.
   */
  function FoundUnder(root: Path, listing: Listing): (r: seq<Found>)
    ensures forall i :: 0 <= i < |r| ==> r[i].size > 0
    decreases listing, 1
  {
    match listing
    case Unlistable(_) => []
    case Listed(entries) => FoundIn(root, entries)
  }

  function FoundIn(root: Path, entries: seq<Entry>): (r: seq<Found>)
    ensures forall i :: 0 <= i < |r| ==> r[i].size > 0
    decreases entries, 0
  {
    if |entries| == 0 then []
    else FoundIn(root, entries[..|entries| - 1]) + FoundAt(root, entries[|entries| - 1])
  }

  function FoundAt(root: Path, entry: Entry): (r: seq<Found>)
    ensures forall i :: 0 <= i < |r| ==> r[i].size > 0
    decreases entry, 2
  {
    match entry
    case RegularFile(name, size) => if size == 0 then [] else [Found(size, Join(root, name))]
    case Directory(name, listing) => FoundUnder(Join(root, name), listing)
    case OtherEntry(_) => []
  }

  /** Appending the found files one by one into the size map. */
  function InsertAll(fileMap: SizeMap, fs: seq<Found>): SizeMap {
    if |fs| == 0 then fileMap
    else
      var last := fs[|fs| - 1];
      Append(InsertAll(fileMap, fs[..|fs| - 1]), last.size, last.path)
  }

  lemma {:induction false} InsertAllConcat(fileMap: SizeMap, a: seq<Found>, b: seq<Found>)
    ensures InsertAll(fileMap, a + b) == InsertAll(InsertAll(fileMap, a), b)
    decreases |b|
  {
    if |b| > 0 {
      assert (a + b)[..|a + b| - 1] == a + b[..|b| - 1];
      assert (a + b)[|a + b| - 1] == b[|b| - 1];
      InsertAllConcat(fileMap, a, b[..|b| - 1]);
    } else {
      assert a + b == a;
    }
  }

  /** Listing a directory inserts exactly the files of the reference traversal. */
  lemma {:induction false} ListFilesInserts(fileMap: SizeMap, root: Path, listing: Listing)
    requires listing.Listed? || listing.error == PermissionDenied
    ensures ListFiles(fileMap, root, listing) == Ok(InsertAll(fileMap, FoundUnder(root, listing)))
    decreases listing, 1
  {
    if listing.Listed? {
      ListEntriesInserts(fileMap, root, listing.entries);
    }
  }

  lemma {:induction false} ListEntriesInserts(fileMap: SizeMap, root: Path, entries: seq<Entry>)
    ensures ListEntries(fileMap, root, entries) == InsertAll(fileMap, FoundIn(root, entries))
    decreases entries, 0
  {
    if |entries| > 0 {
      var init, last := entries[..|entries| - 1], entries[|entries| - 1];
      ListEntriesInserts(fileMap, root, init);
      AddEntryInserts(ListEntries(fileMap, root, init), root, last);
      InsertAllConcat(fileMap, FoundIn(root, init), FoundAt(root, last));
    }
  }

  lemma {:induction false} AddEntryInserts(fileMap: SizeMap, root: Path, entry: Entry)
    ensures AddEntry(fileMap, root, entry) == InsertAll(fileMap, FoundAt(root, entry))
    decreases entry, 2
  {
    match entry
    case RegularFile(name, size) =>
      if size != 0 {
        assert [Found(size, Join(root, name))][..0] == [];
      }
    case Directory(name, listing) =>
      if listing.Listed? || listing.error == PermissionDenied {
        ListFilesInserts(fileMap, Join(root, name), listing);
      }
    case OtherEntry(_) =>
  }

  /**
   Shape of an insertion: each size's list is its old list followed by the
   paths of the found files of that size, in visiting order; no other key
   appears.
   */
  lemma {:induction false} InsertAllShape(fileMap: SizeMap, fs: seq<Found>, k: u64)
    ensures k in InsertAll(fileMap, fs) <==> k in fileMap || |Having(fs, SizeOf, k)| > 0
    ensures k in InsertAll(fileMap, fs) ==>
      InsertAll(fileMap, fs)[k] == (if k in fileMap then fileMap[k] else []) + Paths(Having(fs, SizeOf, k))
    decreases |fs|
  {
    if |fs| > 0 {
      var init := fs[..|fs| - 1];
      InsertAllShape(fileMap, init, k);
      assert Having(fs, SizeOf, k) == Having(init, SizeOf, k) + (if fs[|fs| - 1].size == k then [fs[|fs| - 1]] else []);
    }
  }

  /**
   filesystem.go `listFiles`, as the caller sees it: permission errors skip
   the directory, other errors on `root` itself are returned; otherwise
   existing entries are kept as a prefix, each non-empty regular file found
   is appended under its own size, zero-size files never enter the map and
   no key other than a found size is added.
   */
  lemma ListFilesProperties(fileMap: SizeMap, root: Path, listing: Listing, k: u64)
    requires ListFiles(fileMap, root, listing).Ok?
    ensures var r := ListFiles(fileMap, root, listing).value;
      && (k in r <==> k in fileMap || |Having(FoundUnder(root, listing), SizeOf, k)| > 0)
      && (k in r ==> r[k] == (if k in fileMap then fileMap[k] else []) + Paths(Having(FoundUnder(root, listing), SizeOf, k)))
      && (k in fileMap ==> k in r && fileMap[k] <= r[k])
      && (k == 0 ==> (k in r <==> k in fileMap) && (k in r ==> r[k] == fileMap[k]))
  {
    ListFilesInserts(fileMap, root, listing);
    var fs := FoundUnder(root, listing);
    InsertAllShape(fileMap, fs, k);
    if k == 0 {
      HavingNonEmpty(fs, SizeOf, 0);
    }
  }
}
