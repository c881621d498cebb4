// The disk manager (src/storage/disk_manager.cpp): per-file page counters,
// the path <-> fd maps of open files, and page/log reads and writes. The file
// system is a set of paths, a map from (path, page number) to the page's
// bytes and the log file's bytes; the operating system's answers (the fd
// `open` returns, the byte counts `write` returns) are parameters.
module Disk {
  import opened Wrappers

  /** MAX_FD and PAGE_SIZE come from config.h, which is not part of this model. */
  const MAX_FD: int := 8192
  const PAGE_SIZE: int := 4096
  const LOG_FILE_NAME: string := "db.log"

  datatype DiskError =
    | FileNotClosedError(path: string)
    | FileNotFoundError(path: string)
    | FileNotOpenError(fd: int)
    | FileExistsError(path: string)
    | InternalError
    | UnixError

  /** The two maps of open files are inverse to each other. */
  ghost predicate Inverse(path2fd: map<string, int>, fd2path: map<int, string>)
  {
    && (forall p :: p in path2fd ==> path2fd[p] in fd2path && fd2path[path2fd[p]] == p)
    && (forall fd :: fd in fd2path ==> fd2path[fd] in path2fd && path2fd[fd2path[fd]] == fd)
  }

  /**
   * The bytes written by write_page/write_log's loop when successive write()
   * calls return `ws` (each -1 for an error, otherwise a byte count; a count
   * above what was asked for is read as all of it). The loop stops once n
   * bytes are written, on -1, or when the answers run out.
   */
  function Written(n: nat, done: nat, ws: seq<int>): (r: nat)
    requires done <= n
    ensures done <= r <= n
    decreases |ws|
  {
    if done >= n || ws == [] || ws[0] < 0 then done
    else Written(n, done + (if ws[0] < n - done then ws[0] else n - done), ws[1..])
  }

  /** When every write() makes progress, n answers suffice to write n bytes. */
  lemma {:induction false} WrittenAll(n: nat, done: nat, ws: seq<int>)
    requires done <= n && |ws| >= n - done
    requires forall i :: 0 <= i < |ws| ==> ws[i] >= 1
    ensures Written(n, done, ws) == n
    decreases n - done
  {
    if done < n {
      var step := if ws[0] < n - done then ws[0] else n - done;
      WrittenAll(n, done + step, ws[1..]);
    }
  }

  /** An error from the first write() means nothing is written. */
  lemma WrittenNone(n: nat, ws: seq<int>)
    requires n > 0 && ws != [] && ws[0] < 0
    ensures Written(n, 0, ws) == 0
  {
  }

  /** A file's bytes after `written` bytes of `data` were written over `old`. */
  function Overwrite(prev: seq<byte>, data: seq<byte>, written: nat): (r: seq<byte>)
    requires written <= |data|
    ensures |r| == if |prev| > written then |prev| else written
    ensures r[..written] == data[..written]
    ensures |prev| > written ==> r[written..] == prev[written..]
  {
    data[..written] + (if |prev| > written then prev[written..] else [])
  }

  /**
   * read_log's size logic: -1 when offset lies beyond the file, otherwise
   * the number of bytes available, at most `size`.
   */
  function ReadLogCount(size: int, offset: int, fileSize: int): (r: int)
    requires 0 <= size
    ensures r == -1 <==> offset > fileSize
    ensures r != -1 ==> r <= size && offset + r <= fileSize
    ensures r != -1 && size <= fileSize - offset ==> r == size
    ensures r != -1 && size > fileSize - offset ==> offset + r == fileSize
  {
    if offset > fileSize then -1
    else if size < fileSize - offset then size else fileSize - offset
  }

  class DiskManager {
    /** fd2pageno_: the next page number to hand out, per fd. */
    const fd2pageno: array<int>
    var path2fd: map<string, int>
    var fd2path: map<int, string>
    /** The files that exist. */
    var files: set<string>
    /** The bytes of page `no` of file `path`, for pages ever written. */
    var pages: map<(string, int), seq<byte>>
    /** The bytes of the log file. */
    var logData: seq<byte>
    var logFd: int

    ghost predicate Valid()
      reads this
    {
      fd2pageno.Length == MAX_FD && Inverse(path2fd, fd2path)
    }

    constructor()
      ensures Valid() && fresh(fd2pageno)
      ensures forall fd :: 0 <= fd < MAX_FD ==> fd2pageno[fd] == 0
      ensures path2fd == map[] && fd2path == map[] && logFd == -1
    {
      fd2pageno := new int[MAX_FD](_ => 0);
      path2fd, fd2path := map[], map[];
      files, pages, logData := {}, map[], [];
      logFd := -1;
    }

    /** allocate_page: hands out fd's counter and advances it. */
    method AllocatePage(fd: int) returns (pageNo: int)
      requires Valid() && 0 <= fd < MAX_FD
      modifies fd2pageno
      ensures pageNo == old(fd2pageno[fd]) && fd2pageno[fd] == pageNo + 1
      ensures forall g :: 0 <= g < MAX_FD && g != fd ==> fd2pageno[g] == old(fd2pageno[g])
    {
      pageNo := fd2pageno[fd];
      fd2pageno[fd] := pageNo + 1;
    }

    /** create_file: a new, empty file; an existing path is an error. */
    method CreateFile(path: string) returns (r: Result<(), DiskError>)
      modifies this`files
      ensures path in old(files) ==> r == Err(FileExistsError(path)) && files == old(files)
      ensures path !in old(files) ==> r == Ok(()) && files == old(files) + {path}
    {
      if path in files {
        return Err(FileExistsError(path));
      }
      files := files + {path};
      return Ok(());
    }

    /**
     * open_file: an open path is refused, a missing file is not found;
     * otherwise the fd the system hands out (`osFd`) is entered in both maps.
     */
    method OpenFile(path: string, osFd: int) returns (r: Result<int, DiskError>)
      requires Valid() && osFd >= 0 && osFd !in fd2path
      modifies this`path2fd, this`fd2path
      ensures Valid()
      ensures path in old(path2fd) ==> r == Err(FileNotClosedError(path))
      ensures path !in old(path2fd) && path !in files ==> r == Err(FileNotFoundError(path))
      ensures r.Err? ==> path2fd == old(path2fd) && fd2path == old(fd2path)
      ensures r.Ok? <==> path !in old(path2fd) && path in files
      ensures r.Ok? ==>
        && r.value == osFd
        && path2fd == old(path2fd)[path := osFd] && fd2path == old(fd2path)[osFd := path]
    {
      if path in path2fd {
        return Err(FileNotClosedError(path));
      }
      if path !in files {
        return Err(FileNotFoundError(path));
      }
      path2fd := path2fd[path := osFd];
      fd2path := fd2path[osFd := path];
      return Ok(osFd);
    }

    /** close_file: an fd that is not open is an error; otherwise both entries go. */
    method CloseFile(fd: int) returns (r: Result<(), DiskError>)
      requires Valid()
      modifies this`path2fd, this`fd2path
      ensures Valid()
      ensures fd !in old(fd2path) ==> r == Err(FileNotOpenError(fd)) && path2fd == old(path2fd) && fd2path == old(fd2path)
      ensures fd in old(fd2path) ==>
        && r == Ok(())
        && fd2path == old(fd2path) - {fd} && path2fd == old(path2fd) - {old(fd2path)[fd]}
    {
      if fd !in fd2path {
        return Err(FileNotOpenError(fd));
      }
      var path := fd2path[fd];
      fd2path := fd2path - {fd};
      path2fd := path2fd - {path};
      return Ok(());
    }

    /** destroy_file: an open file is refused, a missing one is not found; else it is removed. */
    method DestroyFile(path: string) returns (r: Result<(), DiskError>)
      modifies this`files
      ensures path in path2fd ==> r == Err(FileNotClosedError(path)) && files == old(files)
      ensures path !in path2fd && path !in old(files) ==> r == Err(FileNotFoundError(path)) && files == old(files)
      ensures path !in path2fd && path in old(files) ==> r == Ok(()) && files == old(files) - {path}
    {
      if path in path2fd {
        return Err(FileNotClosedError(path));
      }
      if path !in files {
        return Err(FileNotFoundError(path));
      }
      files := files - {path};
      return Ok(());
    }

    /** get_file_fd: the fd of an open file, or the file is opened now. */
    method GetFileFd(path: string, osFd: int) returns (r: Result<int, DiskError>)
      requires Valid() && osFd >= 0 && osFd !in fd2path
      modifies this`path2fd, this`fd2path
      ensures Valid()
      ensures path in old(path2fd) ==> r == Ok(old(path2fd)[path]) && path2fd == old(path2fd) && fd2path == old(fd2path)
      ensures path !in old(path2fd) && path !in files ==> r == Err(FileNotFoundError(path))
      ensures path !in old(path2fd) && path in files ==> r == Ok(osFd) && path2fd == old(path2fd)[path := osFd]
    {
      if path !in path2fd {
        r := OpenFile(path, osFd);
        return;
      }
      return Ok(path2fd[path]);
    }

    /**
     * write_page: writes `data` over page `pageNo` of fd's file, looping on
     * write() (whose answers are `ws`; on an fd that is not open write()
     * fails). A short write is an InternalError; the bytes that did go out
     * stay written.
     */
    method WritePage(fd: int, pageNo: int, data: seq<byte>, ws: seq<int>) returns (r: Result<(), DiskError>)
      modifies this`pages
      ensures fd !in fd2path ==> pages == old(pages)
      ensures fd in fd2path ==>
        var key := (fd2path[fd], pageNo);
        var written := Written(|data|, 0, ws);
        pages == old(pages)[key := Overwrite(if key in old(pages) then old(pages)[key] else [], data, written)]
      ensures r.Ok? <==> (fd in fd2path || |data| == 0) && Written(|data|, 0, ws) == |data|
      ensures r.Err? ==> r.error == InternalError
    {
      var n := |data|;
      var written := 0;
      var k := 0;
      while written < n && k < |ws|
        invariant 0 <= written <= n && 0 <= k <= |ws|
        invariant Written(n, written, ws[k..]) == Written(n, 0, ws)
        invariant fd !in fd2path ==> written == 0
      {
        var result := if fd in fd2path then ws[k] else -1;
        if result < 0 {
          if fd in fd2path {
            assert ws[k..][0] == ws[k];
          }
          break;
        }
        assert ws[k..][1..] == ws[k + 1..];
        written := written + (if result < n - written then result else n - written);
        k := k + 1;
      }
      if fd in fd2path {
        var key := (fd2path[fd], pageNo);
        var before := if key in pages then pages[key] else [];
        pages := pages[key := Overwrite(before, data, written)];
      }
      if written != n {
        return Err(InternalError);
      }
      return Ok(());
    }

    /**
     * read_page: the first n bytes of page `pageNo` of fd's file; a read
     * that comes back short (an fd that is not open, a page never written)
     * is an InternalError.
     */
    method ReadPage(fd: int, pageNo: int, n: nat) returns (r: Result<seq<byte>, DiskError>)
      ensures r.Ok? <==> n == 0 || (fd in fd2path && (fd2path[fd], pageNo) in pages && n <= |pages[(fd2path[fd], pageNo)]|)
      ensures r.Ok? && n > 0 ==> r.value == pages[(fd2path[fd], pageNo)][..n]
      ensures r.Ok? && n == 0 ==> r.value == []
      ensures r.Err? ==> r.error == InternalError
    {
      if n == 0 {
        return Ok([]);
      }
      if fd !in fd2path || (fd2path[fd], pageNo) !in pages || n > |pages[(fd2path[fd], pageNo)]| {
        return Err(InternalError);
      }
      return Ok(pages[(fd2path[fd], pageNo)][..n]);
    }

    /** get_file_size of the log: -1 when there is no log file. */
    function LogSize(): (r: int)
      reads this
      ensures r == -1 <==> LOG_FILE_NAME !in files
    {
      if LOG_FILE_NAME in files then |logData| else -1
    }

    /**
     * read_log: opens the log on first use; then -1 when offset is beyond
     * the file, 0 when nothing is left, else the bytes from offset on, at
     * most `size` of them.
     */
    method ReadLog(size: int, offset: int, osFd: int) returns (r: Result<int, DiskError>, data: seq<byte>)
      requires Valid() && osFd >= 0 && osFd !in fd2path && 0 <= offset && 0 <= size
      modifies this`path2fd, this`fd2path, this`logFd
      ensures Valid()
      ensures r.Ok? ==> r.value == ReadLogCount(size, offset, LogSize())
      ensures r.Ok? && r.value > 0 ==> data == logData[offset..offset + r.value]
      ensures r.Ok? && r.value <= 0 ==> data == []
      ensures old(logFd) != -1 ==> r.Ok? && logFd == old(logFd)
    {
      data := [];
      if logFd == -1 {
        var o := OpenFile(LOG_FILE_NAME, osFd);
        if o.Err? {
          return Err(o.error), [];
        }
        logFd := o.value;
      }
      var fileSize := LogSize();
      if offset > fileSize {
        return Ok(-1), [];
      }
      var count := ReadLogCount(size, offset, fileSize);
      if count <= 0 {
        return Ok(count), [];
      }
      data := logData[offset..offset + count];
      return Ok(count), data;
    }

    /**
     * write_log: opens the log on first use, then appends `data` with the
     * write() loop; a short write is a UnixError, with the bytes that did go
     * out appended.
     */
    method WriteLog(data: seq<byte>, ws: seq<int>, osFd: int) returns (r: Result<(), DiskError>)
      requires Valid() && osFd >= 0 && osFd !in fd2path
      modifies this`path2fd, this`fd2path, this`logFd, this`logData
      ensures Valid()
      ensures r.Ok? ==> logData == old(logData) + data
      ensures old(logFd) != -1 ==>
        && logData == old(logData) + data[..Written(|data|, 0, ws)]
        && (r.Ok? <==> Written(|data|, 0, ws) == |data|)
    {
      if logFd == -1 {
        var o := OpenFile(LOG_FILE_NAME, osFd);
        if o.Err? {
          return Err(o.error);
        }
        logFd := o.value;
      }
      var n := |data|;
      var written := 0;
      var k := 0;
      while written < n && k < |ws|
        invariant 0 <= written <= n && 0 <= k <= |ws|
        invariant Written(n, written, ws[k..]) == Written(n, 0, ws)
      {
        if ws[k] < 0 {
          assert ws[k..][0] == ws[k];
          break;
        }
        assert ws[k..][1..] == ws[k + 1..];
        written := written + (if ws[k] < n - written then ws[k] else n - written);
        k := k + 1;
      }
      logData := logData + data[..written];
      if written != n {
        return Err(UnixError);
      }
      return Ok(());
    }
  }

  /** Opening a file and closing its fd leaves the open-file maps as they were. */
  lemma OpenCloseRestores(path2fd: map<string, int>, fd2path: map<int, string>, path: string, fd: int)
    requires Inverse(path2fd, fd2path) && path !in path2fd && fd !in fd2path
    ensures Inverse(path2fd[path := fd], fd2path[fd := path])
    ensures fd2path[fd := path] - {fd} == fd2path
    ensures path2fd[path := fd] - {fd2path[fd := path][fd]} == path2fd
  {
  }
}
