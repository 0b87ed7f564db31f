/** The audit log writer in the form the daemon runs it: a handle on an inode of a shared file
    system, and the sink that appends through it. Every method is proved against `AuditTrail`. */
module AuditLog {
  import opened Wrappers
  import opened Utf8
  import opened AuditTrail

  class FileSystem {
    var names: map<Path, Inode>
    var data: map<Inode, Bytes>

    constructor ()
      ensures names == map[] && data == map[]
    {
      names, data := map[], map[];
    }
  }

  datatype Reattach = Unchanged | HandleReopened(endsMidLine: bool)

  class LogFile {
    const fs: FileSystem
    const path: Path
    var inode: Inode

    predicate Valid()
      reads this, fs
    {
      inode in fs.data && forall p :: p in fs.names ==> fs.names[p] in fs.data
    }

    /** The state of file system, handle and sink together, as `AuditTrail` describes it. */
    ghost function View(unterminated: bool, lastSize: Option<nat>): State
      reads this, fs
    {
      State(fs.names, fs.data, path, inode, unterminated, lastSize)
    }

    constructor (fs: FileSystem, path: Path, inode: Inode)
      ensures this.fs == fs && this.path == path && this.inode == inode
    {
      this.fs, this.path, this.inode := fs, path, inode;
    }

    method StillAttached() returns (attached: bool)
      ensures attached == (path in fs.names && fs.names[path] == inode)
    {
      attached := path in fs.names && fs.names[path] == inode;
    }

    method AppendBytes(buf: Bytes, writing: Writing) returns (ok: bool)
      requires Valid() && buf != []
      modifies fs`data
      ensures Valid() && ok == writing.WritesAll?
      ensures fs.data == old(fs.data)[inode := old(fs.data[inode]) + Reaching(buf, writing)]
    {
      fs.data := fs.data[inode := fs.data[inode] + Reaching(buf, writing)];
      ok := writing.WritesAll?;
    }

    method Size(known: bool) returns (size: Option<nat>)
      requires Valid()
      ensures size == if known then Some(|fs.data[inode]|) else None
    {
      size := if known then Some(|fs.data[inode]|) else None;
    }

    method SetLength(len: nat, works: bool) returns (ok: bool)
      requires Valid()
      modifies fs`data
      ensures Valid() && ok == works
      ensures fs.data == if works then old(fs.data)[inode := Resized(old(fs.data[inode]), len)] else old(fs.data)
    {
      if works {
        fs.data := fs.data[inode := Resized(fs.data[inode], len)];
      }
      ok := works;
    }

    /** Checks that the handle still is what the path names, and reopens the path when it is not. */
    method CheckAttached(a: Answers, ghost unterminated: bool, ghost lastSize: Option<nat>) returns (r: Reattach)
      requires Valid()
      modifies this, fs
      ensures Valid()
      ensures r.Unchanged? ==> View(unterminated, lastSize) == Reattached(old(View(unterminated, lastSize)), a)
      ensures r.HandleReopened? ==> View(r.endsMidLine, None) == Reattached(old(View(unterminated, lastSize)), a)
    {
      if a.statFails {
        return Unchanged;
      }
      var attached := StillAttached();
      if attached {
        return Unchanged;
      }
      if path !in fs.names && (a.opening.Opens? || a.opening.creates) {
        fs.data := fs.data[a.created := []];
        fs.names := fs.names[path := a.created];
      }
      match a.opening {
        case OpenFails(_) => return Unchanged;
        case Opens(readable) =>
          inode := fs.names[path];
          return HandleReopened(readable && EndsMidLine(fs.data[inode]));
      }
    }
  }

  class AuditLog {
    const bytes: LogFile
    var unterminated: bool
    var lastSize: Option<nat>

    predicate Valid()
      reads this, bytes, bytes.fs
    {
      bytes.Valid()
    }

    ghost function View(): State
      reads this, bytes, bytes.fs
    {
      bytes.View(unterminated, lastSize)
    }

    constructor (bytes: LogFile, unterminated: bool)
      ensures this.bytes == bytes && this.unterminated == unterminated && this.lastSize == None
    {
      this.bytes, this.unterminated, this.lastSize := bytes, unterminated, None;
    }

    /** One line per record: written whole, or taken back, or remembered as broken. */
    method Append(line: Bytes, a: Answers) returns (warned: bool)
      requires Valid()
      modifies this, bytes, bytes.fs
      ensures Valid()
      ensures View() == Appended(old(View()), line, a, false)
      ensures warned == Warns(old(View()), a)
    {
      ReattachedValid(View(), a);
      var reattach := bytes.CheckAttached(a, unterminated, lastSize);
      if reattach.HandleReopened? {
        unterminated := reattach.endsMidLine;
        lastSize := None;
      }
      warned := WriteRecord(line, a);
    }

    /** The part of `Append` behind the reattachment. */
    method WriteRecord(line: Bytes, a: Answers) returns (warned: bool)
      requires Valid()
      modifies this, bytes.fs`data
      ensures Valid()
      ensures View() == Written(old(View()), line, a, false)
      ensures warned == (a.sizeKnown && old(lastSize).Some? &&
                         old(|bytes.fs.data[bytes.inode]|) < old(lastSize).value)
    {
      var buf: Bytes := [];
      if unterminated {
        buf := buf + [NEWLINE];
      }
      buf := buf + line;
      buf := buf + [NEWLINE];
      assert buf == Buffer(View(), line);

      var sizeBefore := bytes.Size(a.sizeKnown);
      warned := sizeBefore.Some? && lastSize.Some? && sizeBefore.value < lastSize.value;
      var ok := WriteOrRollBack(buf, sizeBefore, a);
      unterminated := !ok;
      lastSize := bytes.Size(a.sizeAfterKnown);
    }

    /** Writes the buffer; a write that fails is taken back when the size before it is known. Says
        whether the file is as the caller wants it: with the record whole, or without any of it. */
    method WriteOrRollBack(buf: Bytes, sizeBefore: Option<nat>, a: Answers) returns (ok: bool)
      requires Valid() && buf != []
      requires sizeBefore == if a.sizeKnown then Some(|bytes.fs.data[bytes.inode]|) else None
      modifies bytes.fs`data
      ensures Valid() && ok == (a.writing.WritesAll? || RollsBack(a))
      ensures var before := old(bytes.fs.data[bytes.inode]);
              var partial := before + Reaching(buf, a.writing);
              bytes.fs.data == old(bytes.fs.data)[bytes.inode :=
                if RollsBack(a) then Resized(partial, |before|) else partial]
    {
      ok := bytes.AppendBytes(buf, a.writing);
      if !ok && sizeBefore.Some? {
        ok := bytes.SetLength(sizeBefore.value, a.truncates);
      }
    }
  }

  /** Opens the log at `path`, creating it when it is missing. */
  method Open(fs: FileSystem, path: Path, opening: Opening, created: Inode) returns (log: Option<AuditLog>)
    requires forall p :: p in fs.names ==> fs.names[p] in fs.data
    modifies fs
    ensures log.Some? <==> opening.Opens?
    ensures log.Some? ==>
              fresh(log.value) && fresh(log.value.bytes) && log.value.bytes.fs == fs && log.value.Valid() &&
              log.value.bytes.path == path && Attached(log.value.View()) && log.value.lastSize == None
    ensures log.Some? ==>
              (FlagSound(log.value.View()) <==>
               opening.readable || !EndsMidLine(log.value.bytes.fs.data[log.value.bytes.inode]))
    ensures old(path in fs.names) ==> fs.names == old(fs.names) && fs.data == old(fs.data)
    ensures old(path !in fs.names) && (opening.Opens? || opening.creates) ==>
              fs.names == old(fs.names)[path := created] && fs.data == old(fs.data)[created := []]
    ensures old(path !in fs.names) && opening.OpenFails? && !opening.creates ==>
              fs.names == old(fs.names) && fs.data == old(fs.data)
  {
    if path !in fs.names && (opening.Opens? || opening.creates) {
      fs.data := fs.data[created := []];
      fs.names := fs.names[path := created];
    }
    match opening {
      case OpenFails(_) => return None;
      case Opens(readable) =>
        var inode := fs.names[path];
        var file := new LogFile(fs, path, inode);
        var unterminated := readable && EndsMidLine(fs.data[inode]);
        var sink := new AuditLog(file, unterminated);
        return Some(sink);
    }
  }
}
