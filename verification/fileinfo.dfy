/**
 The scanned-file record of fileinfo.go. The `os.FileInfo` it carries is
 reduced to the fields the record-list scanner reads from it.
 */
module FileInfos {
  import opened Common

  /** The parts of Go's `os.FileInfo` the model needs: base name and size in bytes. */
  datatype StatInfo = StatInfo(name: string, size: u64)

  /**
   One candidate file. `priority` is a Go `uint8`, so it lies in 0..255 by
   its type; `path` locates the file and `inode` identifies its data.
   */
  datatype FileInfo = FileInfo(priority: u8, path: Path, inode: u64, info: StatInfo)
  {
    /** The size scanner.go reads as `f.Size`. */
    function Size(): u64 {
      info.size
    }
  }

  /** fileinfo.go `newFileInfo`: total, no validation, every argument stored as given. */
  function NewFileInfo(priority: u8, path: Path, inode: u64, info: StatInfo): (r: FileInfo)
    ensures r.priority == priority && r.path == path && r.inode == inode
    ensures r.info == info && r.Size() == info.size
  {
    FileInfo(priority, path, inode, info)
  }
}
