/**
 Committing a database: `write_all`, `create_backup` and `commonio_close` of
 lib/commonio.c over a file system in which every call may fail. The trace of the
 file system records its state after each call, so that what it holds at any
 moment, and not only at the end, can be stated.
 */
module Commit {
  import opened Wrappers
  import opened CommonIO

  type Files = map<string, string>

  function Content(f: Files, name: string): Option<string> {
    if name in f then Some(f[name]) else None
  }

  /** The names `mkstemp` makes for a file: six more characters behind `.cio`. */
  predicate IsTemp(name: string, file: string) {
    |name| == |file| + 10 && name[..|file| + 4] == file + ".cio"
  }

  function BackupOf(file: string): string {
    file + "-"
  }

  lemma {:induction false} NamesApart(file: string, tmp: string)
    ensures BackupOf(file) != file && (IsTemp(tmp, file) ==> tmp != file && tmp != BackupOf(file))
  {
    assert |BackupOf(file)| == |file| + 1;
  }

  // ----- what a file must look like -----

  /** The text of one entry: a changed one is printed, another one is copied. */
  function Text<T>(it: Item<T>, put: T -> Option<string>): Option<string> {
    if it.changed then (if it.rec.Some? then put(it.rec.value) else None)
    else if it.line.Some? then Some(it.line.value + "\n")
    else Some("")
  }

  /** The whole file, unless some entry cannot be printed. */
  function Serialize<T>(s: seq<Item<T>>, put: T -> Option<string>): Option<string> {
    if s == [] then Some("")
    else
      var a, b := Serialize(s[..|s| - 1], put), Text(s[|s| - 1], put);
      if a.Some? && b.Some? then Some(a.value + b.value) else None
  }

  lemma {:induction false} SerializePrefix<T>(s: seq<Item<T>>, n: nat, put: T -> Option<string>)
    requires n <= |s| && Serialize(s[..n], put).None?
    ensures Serialize(s, put).None?
    decreases |s| - n
  {
    if n < |s| {
      assert s[..n + 1][..n] == s[..n];
      SerializePrefix(s, n + 1, put);
    } else {
      assert s[..n] == s;
    }
  }

  /** Everything but the database, its backup and temporary files is as before. */
  ghost predicate OthersKept(f: Files, g: Files, file: string) {
    forall name :: (name in f || name in g) && name != file && name != BackupOf(file) && !IsTemp(name, file) ==>
      Content(f, name) == Content(g, name)
  }

  /** A state before the commit: the named file is the old one; the backup is still
      the old backup or already the old file. */
  ghost predicate Before(f: Files, g: Files, file: string) {
    && Content(g, file) == Content(f, file)
    && (Content(g, BackupOf(file)) == Content(f, BackupOf(file))
        || (file in f && Content(g, BackupOf(file)) == Content(f, file)))
    && OthersKept(f, g, file)
  }

  /** A state after it: the named file holds the whole new text. */
  ghost predicate After(f: Files, g: Files, file: string, text: Option<string>) {
    && text.Some? && Content(g, file) == text
    && Content(g, BackupOf(file)) == (if file in f then Content(f, file) else Content(f, BackupOf(file)))
    && OthersKept(f, g, file)
  }

  // ----- system calls, each of which may fail -----

  /** What was done to a file: its owner and mode set, its content brought to the disk. */
  datatype Status = Status(owner: bool, mode: bool, synced: bool)

  const READY := Status(true, true, true)

  class FileSystem {
    var files: Files
    ghost var trace: seq<Files>
    ghost var status: map<string, Status>
    ghost var failed: bool               // some call failed whose result matters

    constructor ()
      ensures files == map[] && trace == [] && !failed
    {
      files, trace, status, failed := map[], [], map[], false;
    }

    ghost function StatusOf(name: string): Status
      reads this`status
    {
      if name in status then status[name] else Status(false, false, false)
    }

    /** `mkstemp`: a new empty file. */
    method Create(file: string) returns (tmp: Option<string>)
      modifies this
      ensures trace == old(trace) + [files] && failed == (old(failed) || tmp.None?)
      ensures tmp.None? ==> files == old(files)
      ensures tmp.Some? ==> tmp.value !in old(files) && IsTemp(tmp.value, file) && files == old(files)[tmp.value := ""]
    {
      var suffix: string := *;
      var name := file + ".cio" + suffix;
      tmp := None;
      if |suffix| == 6 && name !in files {
        files := files[name := ""];
        tmp := Some(name);
      }
      failed := failed || tmp.None?;
      trace := trace + [files];
    }

    /** A buffered write: the stream holds `written + text` if it succeeds; what is
        in the file by then is open. */
    method Put(tmp: string, written: string, text: string) returns (ok: bool, now: string)
      requires tmp in files
      modifies this
      ensures trace == old(trace) + [files] && failed == (old(failed) || !ok)
      ensures tmp in files && files == old(files)[tmp := files[tmp]]
      ensures StatusOf(tmp) == old(StatusOf(tmp)).(synced := false)
      ensures ok ==> now == written + text
    {
      var flushed: string := *;
      files := files[tmp := flushed];
      ok := *;
      now := if ok then written + text else written;
      failed := failed || !ok;
      status := status[tmp := StatusOf(tmp).(synced := false)];
      trace := trace + [files];
    }

    /** `fflush`: if it succeeds the file holds all that was written. */
    method Flush(tmp: string, written: string) returns (ok: bool)
      requires tmp in files
      modifies this
      ensures trace == old(trace) + [files] && failed == (old(failed) || !ok)
      ensures tmp in files && files == old(files)[tmp := files[tmp]]
      ensures StatusOf(tmp) == old(StatusOf(tmp)).(synced := false)
      ensures ok ==> files[tmp] == written
    {
      ok := *;
      var flushed: string := *;
      files := files[tmp := if ok then written else flushed];
      failed := failed || !ok;
      status := status[tmp := StatusOf(tmp).(synced := false)];
      trace := trace + [files];
    }

    /** `fstat`, `fseek` or `fclose`: no content changes. */
    method Call() returns (ok: bool)
      modifies this`trace, this`failed
      ensures trace == old(trace) + [files] && failed == (old(failed) || !ok)
    {
      ok := *;
      failed := failed || !ok;
      trace := trace + [files];
    }

    /** A call whose result nobody asks for. */
    method Ignored()
      modifies this`trace
      ensures trace == old(trace) + [files]
    {
      trace := trace + [files];
    }

    /** `fchown`. */
    method SetOwner(tmp: string) returns (ok: bool)
      modifies this`trace, this`failed, this`status
      ensures trace == old(trace) + [files] && failed == (old(failed) || !ok)
      ensures StatusOf(tmp) == if ok then old(StatusOf(tmp)).(owner := true) else old(StatusOf(tmp))
    {
      ok := Call();
      if ok {
        status := status[tmp := StatusOf(tmp).(owner := true)];
      }
    }

    /** `fchmod`. */
    method SetMode(tmp: string) returns (ok: bool)
      modifies this`trace, this`failed, this`status
      ensures trace == old(trace) + [files] && failed == (old(failed) || !ok)
      ensures StatusOf(tmp) == if ok then old(StatusOf(tmp)).(mode := true) else old(StatusOf(tmp))
    {
      ok := Call();
      if ok {
        status := status[tmp := StatusOf(tmp).(mode := true)];
      }
    }

    /** `fsync`: what was flushed is on the disk. */
    method Sync(tmp: string) returns (ok: bool)
      modifies this`trace, this`failed, this`status
      ensures trace == old(trace) + [files] && failed == (old(failed) || !ok)
      ensures StatusOf(tmp) == if ok then old(StatusOf(tmp)).(synced := true) else old(StatusOf(tmp))
    {
      ok := Call();
      if ok {
        status := status[tmp := StatusOf(tmp).(synced := true)];
      }
    }

    /** Looks at the files without a call. */
    ghost method Observe()
      modifies this`trace
      ensures trace == old(trace) + [files]
    {
      trace := trace + [files];
    }

    method Unlink(name: string) returns (ok: bool)
      modifies this
      ensures trace == old(trace) + [files] && failed == (old(failed) || !ok)
      ensures files == if ok then old(files) - {name} else old(files)
    {
      ok := *;
      failed := failed || !ok;
      if ok {
        files, status := files - {name}, status - {name};
      }
      trace := trace + [files];
    }

    /** `rename`: replaces the target in one step. */
    method Rename(from: string, to: string) returns (ok: bool)
      requires from in files
      modifies this
      ensures trace == old(trace) + [files] && failed == (old(failed) || !ok)
      ensures files == if ok then (old(files) - {from})[to := old(files)[from]] else old(files)
      ensures ok ==> StatusOf(to) == old(StatusOf(from))
    {
      ok := *;
      failed := failed || !ok;
      if ok {
        files := (files - {from})[to := files[from]];
        status := (status - {from})[to := StatusOf(from)];
      }
      trace := trace + [files];
    }

    // ----- the steps of a commit -----

    /** Since the trace had length `k`, only temporary files differ from `f`. */
    ghost predicate TempsSince(k: nat, f: Files, file: string)
      reads this
    {
      && k < |trace| && trace[|trace| - 1] == files
      && forall i :: k <= i < |trace| ==> TempsOnly(f, trace[i], file)
    }

    /** `fchown`, and `fchmod` if that succeeded. */
    method SetPerms(tmp: string) returns (ok: bool)
      modifies this`trace, this`failed, this`status
      ensures trace == old(trace) + [files] || trace == old(trace) + [files, files]
      ensures failed == (old(failed) || !ok)
      ensures ok ==> StatusOf(tmp).owner && StatusOf(tmp).mode
    {
      ok := SetOwner(tmp);
      if ok {
        ok := SetMode(tmp);
      }
    }

    /** `fmkstemp_set_perms`. */
    method CreateWithPerms(file: string, ghost k: nat, ghost f: Files) returns (tmp: Option<string>)
      requires TempsSince(k, f, file)
      modifies this
      ensures old(trace) <= trace && TempsSince(k, f, file)
      ensures tmp.Some? ==> tmp.value !in old(files) && IsTemp(tmp.value, file) && files == old(files)[tmp.value := ""]
      ensures tmp.Some? ==> StatusOf(tmp.value).owner && StatusOf(tmp.value).mode
      ensures (old(failed) ==> failed) && (!old(failed) ==> (tmp.Some? <==> !failed))
    {
      tmp := Create(file);
      if tmp.Some? {
        var ok := SetPerms(tmp.value);
        if !ok {
          var _ := Unlink(tmp.value);
          tmp := None;
        }
      }
    }

    /** The copying loop of `create_backup`. */
    method Copy(tmp: string, text: string, file: string, ghost k: nat, ghost f: Files)
        returns (ok: bool, written: string)
      requires TempsSince(k, f, file) && tmp in files && IsTemp(tmp, file)
      modifies this
      ensures old(trace) <= trace && TempsSince(k, f, file)
      ensures tmp in files && files == old(files)[tmp := files[tmp]]
      ensures ok ==> written == text
      ensures StatusOf(tmp).owner == old(StatusOf(tmp).owner) && StatusOf(tmp).mode == old(StatusOf(tmp).mode)
      ensures (old(failed) ==> failed) && (!old(failed) ==> (ok <==> !failed))
    {
      written := "";
      ok := Call();
      var n := 0;
      while ok && n < |text|
        invariant 0 <= n <= |text|
        invariant old(trace) <= trace && TempsSince(k, f, file)
        invariant tmp in files && files == old(files)[tmp := files[tmp]]
        invariant ok ==> written == text[..n]
        invariant StatusOf(tmp).owner == old(StatusOf(tmp).owner) && StatusOf(tmp).mode == old(StatusOf(tmp).mode)
        invariant (old(failed) ==> failed) && (!old(failed) ==> (ok <==> !failed))
        decreases |text| - n
      {
        ok, written := Put(tmp, written, [text[n]]);
        assert text[..n + 1] == text[..n] + [text[n]];
        n := n + 1;
      }
      assert text[..|text|] == text;
    }

    /** `fflush`, `fsync` and `fclose`, each only if the one before succeeded. */
    method FlushAndSync(tmp: string, written: string) returns (ok: bool)
      requires tmp in files
      modifies this
      ensures trace == old(trace) + [files] || trace == old(trace) + [files, files]
              || trace == old(trace) + [files, files, files]
      ensures tmp in files && files == old(files)[tmp := files[tmp]]
      ensures ok ==> files[tmp] == written && StatusOf(tmp) == old(StatusOf(tmp)).(synced := true)
      ensures failed == (old(failed) || !ok)
    {
      ok := Flush(tmp, written);
      if ok {
        ok := Sync(tmp);
      }
      if ok {
        ok := Call();
      }
    }

    /** The end of `create_backup` up to its `rename`: every failure unlinks. */
    method FlushOrUnlink(tmp: string, written: string, copied: bool, file: string, ghost k: nat, ghost f: Files)
        returns (ok: bool)
      requires TempsSince(k, f, file) && tmp in files && IsTemp(tmp, file)
      modifies this
      ensures old(trace) <= trace && TempsSince(k, f, file)
      ensures ok ==> copied && files == old(files)[tmp := written]
      ensures ok ==> StatusOf(tmp) == old(StatusOf(tmp)).(synced := true)
      ensures (old(failed) ==> failed) && (!old(failed) ==> (ok <==> copied && !failed))
    {
      ok := copied;
      if ok {
        ok := FlushAndSync(tmp, written);
      }
      if !ok {
        var _ := Unlink(tmp);
      }
    }

    /** The end of the commit: no failure stops the calls that follow it. */
    method FlushAndClose(tmp: string, written: string, file: string, ghost k: nat, ghost f: Files) returns (ok: bool)
      requires TempsSince(k, f, file) && tmp in files && IsTemp(tmp, file)
      modifies this
      ensures old(trace) <= trace && TempsSince(k, f, file)
      ensures tmp in files && files == old(files)[tmp := files[tmp]]
      ensures ok ==> files[tmp] == written && StatusOf(tmp) == old(StatusOf(tmp)).(synced := true)
      ensures failed == (old(failed) || !ok)
    {
      var flushed := Flush(tmp, written);
      var synced := Sync(tmp);
      var closed := Call();
      ok := flushed && synced && closed;
    }

    /** The part of `create_backup` that fills a temporary file. */
    method CopyOut(file: string, text: string, ghost k: nat, ghost f: Files) returns (tmp: Option<string>)
      requires TempsSince(k, f, file)
      modifies this
      ensures old(trace) <= trace && TempsSince(k, f, file)
      ensures tmp.Some? ==>
                tmp.value !in old(files) && IsTemp(tmp.value, file) && files == old(files)[tmp.value := text]
      ensures tmp.Some? ==> StatusOf(tmp.value) == READY
      ensures (old(failed) ==> failed) && (!old(failed) ==> (tmp.Some? <==> !failed))
    {
      tmp := CreateWithPerms(file, k, f);
      if tmp.Some? {
        var copied, written := Copy(tmp.value, text, file, k, f);
        var ok := FlushOrUnlink(tmp.value, written, copied, file, k, f);
        if !ok {
          tmp := None;
        }
      }
    }

    ghost predicate BeforeSince(k: nat, f: Files, file: string)
      reads this
    {
      && k < |trace| && trace[|trace| - 1] == files
      && forall i :: k <= i < |trace| ==> Before(f, trace[i], file)
    }

    lemma {:induction false} TempsAreBefore(k: nat, f: Files, file: string)
      requires TempsSince(k, f, file)
      ensures BeforeSince(k, f, file)
    {
      forall i | k <= i < |trace|
        ensures Before(f, trace[i], file)
      {
        TempsBefore(f, trace[i], file);
      }
    }

    /** `create_backup`, the open stream holding `text`: it succeeds exactly if no call
        fails. */
    method Backup(file: string, text: string, ghost k: nat) returns (ok: bool)
      requires Content(files, file) == Some(text) && TempsSince(k, files, file)
      modifies this
      ensures old(trace) <= trace && BeforeSince(k, old(files), file)
      ensures if ok then files == old(files)[BackupOf(file) := text] else TempsOnly(old(files), files, file)
      ensures ok ==> StatusOf(BackupOf(file)) == READY
      ensures (old(failed) ==> failed) && (!old(failed) ==> (ok <==> !failed))
    {
      ghost var f := files;
      ok := Call();
      var tmp := None;
      if ok {
        tmp := CopyOut(file, text, k, f);
      }
      TempsAreBefore(k, f, file);
      if tmp.None? {
        return false;
      }
      ok := Install(tmp.value, text, file, k, f);
    }

    /** The `rename` that ends `create_backup`. */
    method Install(tmp: string, text: string, file: string, ghost k: nat, ghost f: Files) returns (ok: bool)
      requires BeforeSince(k, f, file) && tmp !in f && IsTemp(tmp, file) && files == f[tmp := text]
      requires Content(f, file) == Some(text)
      modifies this
      ensures old(trace) <= trace && BeforeSince(k, f, file)
      ensures if ok then files == f[BackupOf(file) := text] else TempsOnly(f, files, file)
      ensures ok ==> StatusOf(BackupOf(file)) == old(StatusOf(tmp))
      ensures (old(failed) ==> failed) && (!old(failed) ==> (ok <==> !failed))
    {
      NamesApart(file, tmp);
      assert (f[tmp := text] - {tmp})[BackupOf(file) := text] == f[BackupOf(file) := text];
      ok := Rename(tmp, BackupOf(file));
      if ok {
        Ignored();
      } else {
        var _ := Unlink(tmp);
      }
    }
  }

  lemma {:induction false} TempsBefore(f: Files, g: Files, file: string)
    requires TempsOnly(f, g, file)
    ensures Before(f, g, file)
  {
    assert !IsTemp(file, file) && !IsTemp(BackupOf(file), file) by {
      assert |BackupOf(file)| == |file| + 1;
    }
    assert file in f || file in g ==> Content(f, file) == Content(g, file);
    assert BackupOf(file) in f || BackupOf(file) in g ==> Content(f, BackupOf(file)) == Content(g, BackupOf(file));
  }

  /** Only temporary files of the database differ. */
  ghost predicate TempsOnly(f: Files, g: Files, file: string) {
    forall name :: (name in f || name in g) && !IsTemp(name, file) ==> Content(f, name) == Content(g, name)
  }

  // ----- write_all -----

  /** What `write_all` asserts: a changed entry holds a record. */
  ghost predicate Printable<T>(s: seq<Item<T>>) {
    forall i :: 0 <= i < |s| && s[i].changed ==> s[i].rec.Some?
  }

  /** Writes one entry to the stream. */
  method WriteEntry<T>(fs: FileSystem, p: Entry<T>, put: T -> Option<string>, tmp: string, written: string,
                       file: string, ghost k: nat, ghost f: Files)
      returns (ok: bool, now: string)
    requires p.changed ==> p.rec.Some?
    requires fs.TempsSince(k, f, file) && tmp in fs.files && IsTemp(tmp, file)
    modifies fs
    ensures old(fs.trace) <= fs.trace && fs.TempsSince(k, f, file)
    ensures tmp in fs.files && fs.files == old(fs.files)[tmp := fs.files[tmp]]
    ensures var t := Text(Item(p.line, p.rec, p.changed), put);
            && (ok ==> t.Some? && now == written + t.value)
            && (!old(fs.failed) ==> (ok <==> t.Some? && !fs.failed))
    ensures fs.StatusOf(tmp).owner == old(fs.StatusOf(tmp).owner) && fs.StatusOf(tmp).mode == old(fs.StatusOf(tmp).mode)
    ensures old(fs.failed) ==> fs.failed
  {
    ok, now := true, written;
    if p.changed {
      var text := put(p.rec.value);
      if text.None? {
        return false, written;
      }
      ok, now := fs.Put(tmp, written, text.value);
    } else if p.line.Some? {
      ok, now := fs.Put(tmp, written, p.line.value);
      if ok {
        ok, now := fs.Put(tmp, now, "\n");
      }
    }
  }

  /** The next turn of `write_all`. */
  method WriteNext<T>(fs: FileSystem, db: Database<T>, p: Entry<T>, ghost n: nat, tmp: string, written: string,
                      file: string, ghost k: nat, ghost f: Files)
      returns (ok: bool, now: string)
    requires Filled(db.nodes, db.items) && Printable(db.items) && n < |db.nodes| && p == db.nodes[n]
    requires Serialize(db.items[..n], db.ops.put) == Some(written)
    requires fs.TempsSince(k, f, file) && tmp in fs.files && IsTemp(tmp, file)
    modifies fs
    ensures old(fs.trace) <= fs.trace && fs.TempsSince(k, f, file)
    ensures tmp in fs.files && fs.files == old(fs.files)[tmp := fs.files[tmp]]
    ensures ok ==> Serialize(db.items[..n + 1], db.ops.put) == Some(now)
    ensures fs.StatusOf(tmp).owner == old(fs.StatusOf(tmp).owner) && fs.StatusOf(tmp).mode == old(fs.StatusOf(tmp).mode)
    ensures old(fs.failed) ==> fs.failed
    ensures !old(fs.failed) ==> (ok ==> !fs.failed) && (!ok && !fs.failed ==> Serialize(db.items, db.ops.put).None?)
  {
    assert db.items[n] == Item(p.line, p.rec, p.changed);
    assert db.items[..n + 1][..n] == db.items[..n];
    ok, now := WriteEntry(fs, p, db.ops.put, tmp, written, file, k, f);
    if !ok && !fs.failed {
      SerializePrefix(db.items, n + 1, db.ops.put);
    }
  }

  /** `write_all`. */
  method WriteAll<T>(fs: FileSystem, db: Database<T>, tmp: string, file: string, ghost k: nat, ghost f: Files)
      returns (ok: bool, written: string)
    requires db.Forward() && Filled(db.nodes, db.items) && Printable(db.items)
    requires fs.TempsSince(k, f, file) && tmp in fs.files && IsTemp(tmp, file)
    modifies fs
    ensures old(fs.trace) <= fs.trace && fs.TempsSince(k, f, file)
    ensures tmp in fs.files && fs.files == old(fs.files)[tmp := fs.files[tmp]]
    ensures ok ==> Serialize(db.items, db.ops.put) == Some(written)
    ensures fs.StatusOf(tmp).owner == old(fs.StatusOf(tmp).owner) && fs.StatusOf(tmp).mode == old(fs.StatusOf(tmp).mode)
    ensures old(fs.failed) ==> fs.failed
    ensures !old(fs.failed) ==> (ok <==> Serialize(db.items, db.ops.put).Some? && !fs.failed)
  {
    written := "";
    ghost var n := 0;
    var p := db.head;
    while p != null
      invariant 0 <= n <= |db.nodes| && p == At(db.nodes, n)
      invariant old(fs.trace) <= fs.trace && fs.TempsSince(k, f, file)
      invariant tmp in fs.files && fs.files == old(fs.files)[tmp := fs.files[tmp]]
      invariant Serialize(db.items[..n], db.ops.put) == Some(written)
      invariant fs.StatusOf(tmp).owner == old(fs.StatusOf(tmp).owner)
      invariant fs.StatusOf(tmp).mode == old(fs.StatusOf(tmp).mode)
      invariant (old(fs.failed) ==> fs.failed) && (!old(fs.failed) ==> !fs.failed)
      decreases |db.nodes| - n
    {
      ok, written := WriteNext(fs, db, p, n, tmp, written, file, k, f);
      if !ok {
        return;
      }
      p := p.next;
      n := n + 1;
    }
    assert db.items[..n] == db.items;
    return true, written;
  }

  // ----- commonio_close -----

  /** Writes the list to an empty temporary file. A failure does not stop the calls
      that follow it. */
  method Fill<T>(fs: FileSystem, db: Database<T>, tmp: string, file: string, ghost k: nat, ghost f: Files)
      returns (ok: bool)
    requires db.Forward() && Filled(db.nodes, db.items) && Printable(db.items)
    requires fs.TempsSince(k, f, file) && tmp in fs.files && IsTemp(tmp, file)
    requires fs.StatusOf(tmp).owner && fs.StatusOf(tmp).mode
    modifies fs
    ensures old(fs.trace) <= fs.trace && fs.TempsSince(k, f, file)
    ensures tmp in fs.files && fs.files == old(fs.files)[tmp := fs.files[tmp]]
    ensures ok ==> Serialize(db.items, db.ops.put) == Some(fs.files[tmp]) && fs.StatusOf(tmp) == READY
    ensures old(fs.failed) ==> fs.failed
    ensures !old(fs.failed) ==> (ok <==> Serialize(db.items, db.ops.put).Some? && !fs.failed)
  {
    var all, written := WriteAll(fs, db, tmp, file, k, f);
    var flushed := fs.FlushAndClose(tmp, written, file, k, f);
    ok := all && flushed;
  }

  /** Prints the list to a temporary file: its name if every call succeeded. */
  method PrintOut<T>(fs: FileSystem, db: Database<T>, file: string, ghost k: nat, ghost f: Files)
      returns (tmp: Option<string>)
    requires db.Forward() && Filled(db.nodes, db.items) && Printable(db.items)
    requires fs.TempsSince(k, f, file)
    modifies fs
    ensures old(fs.trace) <= fs.trace && fs.TempsSince(k, f, file)
    ensures tmp.Some? ==>
              var text := Serialize(db.items, db.ops.put);
              && tmp.value !in old(fs.files) && IsTemp(tmp.value, file)
              && text.Some? && fs.files == old(fs.files)[tmp.value := text.value]
              && fs.StatusOf(tmp.value) == READY
    ensures old(fs.failed) ==> fs.failed
    ensures !old(fs.failed) ==> (tmp.Some? <==> Serialize(db.items, db.ops.put).Some? && !fs.failed)
  {
    tmp := fs.CreateWithPerms(file, k, f);
    if tmp.None? {
      return;
    }
    var ok := Fill(fs, db, tmp.value, file, k, f);
    if !ok {
      var _ := fs.Unlink(tmp.value);
      tmp := None;
    }
  }

  /** The replacement of the named file, from the state `f` on. */
  method Replace<T>(fs: FileSystem, db: Database<T>, file: string, ghost k: nat, ghost f: Files) returns (ok: bool)
    requires db.Forward() && Filled(db.nodes, db.items) && Printable(db.items)
    requires fs.TempsSince(k, f, file) && fs.files == f
    modifies fs
    ensures old(fs.trace) <= fs.trace && k < |fs.trace| && fs.trace[|fs.trace| - 1] == fs.files
    ensures forall i :: k <= i < |fs.trace| ==> TempsOnly(f, fs.trace[i], file) || (ok && fs.trace[i] == fs.files)
    ensures !ok ==> TempsOnly(f, fs.files, file)
    ensures ok ==> Serialize(db.items, db.ops.put).Some? && fs.files == f[file := Serialize(db.items, db.ops.put).value]
    ensures ok ==> fs.StatusOf(file) == READY
    ensures !old(fs.failed) ==> (ok <==> Serialize(db.items, db.ops.put).Some? && !fs.failed)
  {
    var tmp := PrintOut(fs, db, file, k, f);
    if tmp.None? {
      return false;
    }
    NamesApart(file, tmp.value);
    ghost var text := Serialize(db.items, db.ops.put).value;
    assert (f[tmp.value := text] - {tmp.value})[file := text] == f[file := text];
    ok := fs.Rename(tmp.value, file);
  }

  /** `free_linked_list`. */
  method FreeLinkedList<T>(db: Database<T>)
    requires db.Forward()
    modifies db`head, db`tail, db`nodes, db`items
    ensures db.head == null && db.tail == null && db.nodes == [] && db.items == []
  {
    ghost var n := 0;
    while db.head != null
      invariant 0 <= n <= |db.nodes| && db.head == At(db.nodes, n)
      invariant forall i {:trigger db.nodes[i].next} :: 0 <= i < |db.nodes| ==> db.nodes[i].next == At(db.nodes, i + 1)
      decreases |db.nodes| - n
    {
      db.head := db.head.next;
      n := n + 1;
    }
    db.tail := null;
    db.nodes, db.items := [], [];
  }

  lemma {:induction false} ThenTemps(f: Files, g: Files, h: Files, file: string)
    requires TempsOnly(g, h, file) && (g == f || (file in f && g == f[BackupOf(file) := f[file]]))
    ensures Before(f, h, file)
  {
    TempsBefore(g, h, file);
    NamesApart(file, file);
  }

  lemma {:induction false} ThenRenamed(f: Files, g: Files, file: string, text: string)
    requires if file in f then g == f[BackupOf(file) := f[file]] else g == f
    ensures After(f, g[file := text], file, Some(text))
  {
    NamesApart(file, file);
  }

  /** The backup of the file that was opened, if there was one. */
  method BackUp(fs: FileSystem, file: string, fp: Option<string>) returns (ok: bool)
    requires fp == Content(fs.files, file)
    modifies fs
    ensures old(fs.trace) <= fs.trace && fs.BeforeSince(|old(fs.trace)|, old(fs.files), file)
    ensures ok ==> fs.files == if fp.Some? then old(fs.files)[BackupOf(file) := fp.value] else old(fs.files)
    ensures old(fs.failed) ==> fs.failed
    ensures !old(fs.failed) ==> (ok <==> !fs.failed)
  {
    ghost var f, k := fs.files, |fs.trace|;
    fs.Observe();
    TempsBefore(f, f, file);
    ok := true;
    if fp.Some? {
      ok := fs.Call();
      if !ok {
        return;
      }
      ok := fs.Backup(file, fp.value, k);
      var closed := fs.Call();
      ok := ok && closed;
    }
  }

  lemma {:induction false} AllMoments(trace: seq<Files>, m: nat, f: Files, g: Files, h: Files, file: string,
                                      text: Option<string>, ok: bool)
    requires if file in f then g == f[BackupOf(file) := f[file]] else g == f
    requires forall i :: m <= i < |trace| ==> TempsOnly(g, trace[i], file) || (ok && trace[i] == h)
    requires ok ==> text.Some? && h == g[file := text.value]
    ensures forall i :: m <= i < |trace| ==> Before(f, trace[i], file) || After(f, trace[i], file, text)
  {
    forall i | m <= i < |trace|
      ensures Before(f, trace[i], file) || After(f, trace[i], file, text)
    {
      if TempsOnly(g, trace[i], file) {
        ThenTemps(f, g, trace[i], file);
      } else {
        ThenRenamed(f, g, file, text.value);
      }
    }
  }

  /** Commits a changed, writable database: the body of `commonio_close`. It succeeds
      exactly if no call fails and every entry can be printed; the file that is then in
      place had its owner and mode set and its content brought to the disk. */
  method CommitChanges<T>(fs: FileSystem, db: Database<T>, file: string, fp: Option<string>) returns (ok: bool)
    requires db.Forward() && Filled(db.nodes, db.items) && Printable(db.items)
    requires fp == Content(fs.files, file)
    modifies fs
    ensures old(fs.trace) <= fs.trace
    ensures forall i :: |old(fs.trace)| <= i < |fs.trace| ==>
              Before(old(fs.files), fs.trace[i], file) ||
              After(old(fs.files), fs.trace[i], file, Serialize(db.items, db.ops.put))
    ensures !ok ==> Before(old(fs.files), fs.files, file)
    ensures ok ==> Serialize(db.items, db.ops.put).Some?
                   && fs.files == (if fp.Some? then old(fs.files)[file + "-" := fp.value] else old(fs.files))
                                  [file := Serialize(db.items, db.ops.put).value]
    ensures ok ==> fs.StatusOf(file) == READY
    ensures !old(fs.failed) ==> (ok <==> Serialize(db.items, db.ops.put).Some? && !fs.failed)
  {
    ghost var f, k := fs.files, |fs.trace|;
    ok := BackUp(fs, file, fp);
    if !ok {
      return;
    }
    ghost var g, m := fs.files, |fs.trace| - 1;
    ok := Replace(fs, db, file, m, g);
    AllMoments(fs.trace, m, f, g, fs.files, file, Serialize(db.items, db.ops.put), ok);
    if !ok {
      ThenTemps(f, g, fs.files, file);
    }
  }

  /**
   `commonio_close`. `fp` is what the open stream reads, `hooked` whether the close
   hook succeeded; `reload` is set when the name service cache is to be flushed.
   */
  method Close<T>(fs: FileSystem, db: Database<T>, file: string, fp: Option<string>, hooked: bool)
      returns (ok: bool, reload: bool)
    requires db.Forward() && Filled(db.nodes, db.items) && Printable(db.items)
    requires fp == Content(fs.files, file)
    modifies fs, db`isOpen, db`head, db`tail, db`nodes, db`items
    ensures old(fs.trace) <= fs.trace
    // at every moment the named file is the old one or holds the whole new text
    ensures forall i :: |old(fs.trace)| <= i < |fs.trace| ==>
              || Before(old(fs.files), fs.trace[i], file)
              || After(old(fs.files), fs.trace[i], file, Serialize(old(db.items), db.ops.put))
    // an open database that needs no commit is closed in any case; a commit succeeds
    // exactly if the hook and every call do and every entry can be printed
    ensures !old(fs.failed) ==>
              (ok <==> && old(db.isOpen)
                       && (old(db.changed && !db.readOnly) ==>
                             hooked && !fs.failed && Serialize(old(db.items), db.ops.put).Some?))
    ensures reload ==> fs.StatusOf(file) == READY
    // failure means the old file, success on a changed database the new one
    ensures !ok ==> Before(old(fs.files), fs.files, file)
    ensures reload <==> ok && old(db.isOpen && db.changed && !db.readOnly)
    ensures reload ==> Serialize(old(db.items), db.ops.put).Some?
                       && fs.files == (if fp.Some? then old(fs.files)[file + "-" := fp.value] else old(fs.files))
                                      [file := Serialize(old(db.items), db.ops.put).value]
    ensures !old(db.isOpen && db.changed && !db.readOnly) ==> fs.files == old(fs.files) && ok == old(db.isOpen)
    ensures !db.isOpen && (old(db.isOpen) ==> db.head == null && db.tail == null && db.nodes == [] && db.items == [])
  {
    TempsBefore(fs.files, fs.files, file);
    if !db.isOpen {
      return false, false;
    }
    db.isOpen := false;
    ok, reload := true, false;
    if !db.changed || db.readOnly {
      if fp.Some? {
        fs.Ignored();
      }
    } else if !hooked {
      ok := false;
    } else {
      ok := CommitChanges(fs, db, file, fp);
      reload := ok;
    }
    FreeLinkedList(db);
  }
}
