/**
 The per-job behaviour of the record-list hashing worker (worker.go):
 which bytes of a file are fed to SHA-256 for each read type, and what the
 worker emits for a job. SHA-256 is a parameter `sha` from the exact byte
 stream written into the hasher to its digest, printed with `%x`.
 */
module Worker {
  import opened Common
  import opened FileSystem
  import opened FileInfos

  /** worker.go `ReadOperationType`, a `uint8`. */
  type ReadOperationType = u8

  /** `iota`, `iota + 1` and `iota + 1` on the lines with iota 0, 1 and 2. */
  const READ_FIRST: ReadOperationType := 0
  const READ_LAST: ReadOperationType := 2
  const READ_WHOLE: ReadOperationType := 3

  lemma ReadTypesDistinct()
    ensures READ_FIRST != READ_LAST && READ_LAST != READ_WHOLE && READ_FIRST != READ_WHOLE
  {
  }

  /** worker.go `hasherWorkerResult`. */
  datatype HasherResult = HasherResult(hash: string, info: FileInfo)

  /** What one job puts on the worker's channels. */
  datatype JobOutcome =
    | Emitted(result: HasherResult)
      /** `os.Open` failed: the error goes to `Errors` and no result is sent. */
    | OpenError(error: Error)
      /** A `Read` failed after the open; worker.go then continues the loop
          and signals the wait group a second time, which the model does not follow. */
    | ReadError
      /** A zero-length buffer on a job that reads to the end: `Read` returns
          0 bytes and no error forever, so the job never finishes. */
    | NoProgress

  /**
   Where reading starts: `READ_LAST` seeks `readSize` bytes before the end;
   on a shorter file the seek is refused, the error ignored and the offset
   stays 0.
   */
  function ReadStart(length: nat, readSize: nat, rt: ReadOperationType): nat {
    if rt == READ_LAST then Max(0, length - readSize) else 0
  }

  /**
   The bytes the worker feeds to the hasher: `READ_FIRST` one read of at
   most `readSize` (and at most `MaxRead`) bytes from the start, `READ_LAST`
   everything from `readSize` before the end, and any other type the whole
   file; the last two read until `io.EOF`, so short reads lose nothing.
   */
  function HashedRange(content: Bytes, readSize: nat, rt: ReadOperationType): (r: Bytes)
    ensures rt == READ_FIRST ==> r == content[..Min(Min(readSize, MaxRead), |content|)]
    ensures rt == READ_LAST ==> r == content[Max(0, |content| - readSize)..]
    ensures rt != READ_FIRST && rt != READ_LAST ==> r == content
  {
    if rt == READ_FIRST then content[..Min(Min(readSize, MaxRead), |content|)]
    else content[ReadStart(|content|, readSize, rt)..]
  }

  /**
   A file no longer than the read size is hashed in full, whatever the read
   type, and nothing is padded; only `READ_FIRST` on a file longer than
   `MaxRead` stops at the end of its one read.
   */
  lemma ShortFileHashedWhole(content: Bytes, readSize: nat, rt: ReadOperationType)
    requires |content| <= readSize
    ensures rt != READ_FIRST || |content| <= MaxRead ==> HashedRange(content, readSize, rt) == content
    ensures rt == READ_FIRST ==> HashedRange(content, readSize, rt) == content[..Min(MaxRead, |content|)]
  {
  }

  /** The outcome of one job, stated from the file and the read type. */
  function JobResult(file: FileHandle, job: FileInfo, readSize: nat, rt: ReadOperationType,
                     sha: Bytes -> Bytes): JobOutcome
  {
    match file
    case Unopenable(e) => OpenError(e)
    case Readable(content, readsFail) =>
      if readSize == 0 && rt != READ_FIRST then NoProgress
      else if readsFail && readSize > 0 then ReadError
      else Emitted(HasherResult(Hex(sha(HashedRange(content, readSize, rt))), job))
  }

  /**
   The body of `worker()` for one job, with its read loop: every successful
   read feeds exactly `buf[0:rb]`, and `READ_FIRST` stops after one read.
   */
  method RunJob(file: FileHandle, job: FileInfo, readSize: nat, rt: ReadOperationType,
                sha: Bytes -> Bytes) returns (out: JobOutcome)
    ensures out == JobResult(file, job, readSize, rt, sha)
    ensures out.Emitted? ==> out.result.info == job
    ensures out.Emitted? && file.Readable? ==>
      out.result.hash == Hex(sha(HashedRange(file.content, readSize, rt)))
  {
    match file {
      case Unopenable(e) =>
        return OpenError(e);
      case Readable(content, readsFail) =>
        if readSize == 0 && rt != READ_FIRST {
          return NoProgress;
        }
        var start := ReadStart(|content|, readSize, rt);
        var pos := start;
        var fed: Bytes := [];
        while true
          invariant start <= pos <= |content|
          invariant fed == content[start..pos]
          invariant rt == READ_FIRST ==> pos == 0
          decreases |content| - pos
        {
          var reply := ReadAt(content, pos, readSize, readsFail);
          match reply {
            case Failed(e) =>
              if e == EndOfFile {
                assert !readsFail && pos == |content|;
                assert fed == HashedRange(content, readSize, rt);
                break;
              }
              return ReadError;
            case Data(bs) =>
              fed := fed + bs;
              pos := pos + |bs|;
              if rt == READ_FIRST {
                assert !readsFail || readSize == 0;
                assert fed == HashedRange(content, readSize, rt);
                break;
              }
          }
        }
        return Emitted(HasherResult(Hex(sha(fed)), job));
    }
  }
}
