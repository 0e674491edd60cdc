/**
 * lib/file-manager.js over an abstract file system: a map from path to
 * (content, modification time) and a clock. Each operation is specified by
 * a function of the file map before it (the `...Of` functions); the
 * `FileStore` class applies them in place. Deleting a file and copying one
 * are assumed to succeed.
 */
module FileManager {
  import opened Text
  import opened Common
  import opened Snapshots
  import opened ConfigContext

  /** What a file holds: ADIF (or any) text, or a JSON snapshot document. */
  datatype Content = Text(text: string) | Json(doc: Snapshot)

  datatype File = File(content: Content, mtime: nat)

  type Files = map<Path, File>

  /** The text `readFileSync(path, "utf8")` yields; a JSON document's serialisation is not modelled and reads as "". */
  function TextOf(c: Content): string {
    if c.Text? then c.text else ""
  }

  /** `config.qsoDataFileBackup !== false`: only an explicit `false` turns backups off. */
  predicate BackupEnabled(c: Context) {
    !("qsoDataFileBackup" in c.config && c.config["qsoDataFileBackup"] == Flag(false))
  }

  // ---------------------------------------------------------------------------
  // cleanupOldBackups

  /** The files in `file`'s directory named like one of its backups, `<name>_<digits>.bak<ext>`. */
  function MatchingBackups(files: Files, file: Path): (m: set<Path>)
    ensures m <= files.Keys
    ensures forall p :: p in m ==> p.dir == file.dir
  {
    var (name, ext) := NameAndExt(file.name);
    set p | p in files && p.dir == file.dir && IsBackupName(name, ext, p.name)
  }

  /**
   * `a` sorts no later than `b` in the newest-first order: a later
   * modification time, or the same one and a name that sorts last (the
   * source leaves ties in directory-listing order).
   */
  predicate NewerOrSame(files: Files, a: Path, b: Path)
    requires a in files && b in files
  {
    files[a].mtime > files[b].mtime || (files[a].mtime == files[b].mtime && LexLe(b.name, a.name))
  }

  predicate IsNewest(files: Files, s: set<Path>, k: Path)
    requires s <= files.Keys
  {
    k in s && forall q :: q in s ==> NewerOrSame(files, k, q)
  }

  /** The newest file of a non-empty set. */
  ghost function Newest(files: Files, s: set<Path>): (k: Path)
    requires s != {} && s <= files.Keys
    ensures IsNewest(files, s, k)
    decreases s
  {
    var x :| x in s;
    if s == {x} then
      LexLeRefl(x.name);
      x
    else
      var m := Newest(files, s - {x});
      if NewerOrSame(files, x, m) then
        forall q | q in s ensures NewerOrSame(files, x, q) {
          if q != x {
            NewerOrSameTransitive(files, q, m, x);
          } else {
            LexLeRefl(x.name);
          }
        }
        x
      else
        LexLeTotal(x.name, m.name);
        m
  }

  lemma NewerOrSameTransitive(files: Files, a: Path, b: Path, c: Path)
    requires a in files && b in files && c in files
    requires NewerOrSame(files, b, a) && NewerOrSame(files, c, b)
    ensures NewerOrSame(files, c, a)
  {
    if files[a].mtime == files[b].mtime == files[c].mtime {
      LexLeTransitive(a.name, b.name, c.name);
    }
  }

  /** Within one directory the newest file is unique. */
  lemma NewestUnique(files: Files, s: set<Path>, a: Path, b: Path)
    requires s <= files.Keys && IsNewest(files, s, a) && IsNewest(files, s, b)
    requires forall p, q :: p in s && q in s ==> p.dir == q.dir
    ensures a == b
  {
    assert NewerOrSame(files, a, b) && NewerOrSame(files, b, a);
    LexLeAntisymmetric(a.name, b.name);
  }

  /** `files` without the members of `s` other than `keep`. */
  function Pruned(files: Files, s: set<Path>, keep: Path): (r: Files)
    ensures r.Keys == files.Keys - (s - {keep})
    ensures forall p :: p in r ==> r[p] == files[p]
  {
    map p | p in files && (p !in s || p == keep) :: files[p]
  }

  lemma PrunedNothing(files: Files, keep: Path)
    ensures Pruned(files, {}, keep) == files
  {
  }

  lemma PrunedGrow(files: Files, gone: set<Path>, keep: Path, p: Path)
    requires p != keep
    ensures Pruned(files, gone + {p}, keep) == Pruned(files, gone, keep) - {p}
  {
  }

  lemma PrunedKeep(files: Files, s: set<Path>, keep: Path)
    ensures Pruned(files, s - {keep}, keep) == Pruned(files, s, keep)
  {
  }

  /** The file map after `cleanupOldBackups(file)`. */
  ghost function CleanupOf(files: Files, file: Path): Files {
    var m := MatchingBackups(files, file);
    if |m| <= 1 then files else Pruned(files, m, Newest(files, m))
  }

  /**
   * After clean-up only the newest matching backup remains; every other
   * file is untouched, and no file is changed or added.
   */
  lemma CleanupKeepsNewest(files: Files, file: Path)
    ensures var r := CleanupOf(files, file); var m := MatchingBackups(files, file);
      && r.Keys <= files.Keys
      && (forall p :: p in r ==> r[p] == files[p])
      && (forall p :: p in files && p !in m ==> p in r)
      && (m != {} ==> exists k :: IsNewest(files, m, k) && k in r && forall p :: p in m && p in r ==> p == k)
  {
    var m := MatchingBackups(files, file);
    if m != {} {
      var k := Newest(files, m);
      if |m| <= 1 {
        assert m == (m - {k}) + {k};
        assert |m - {k}| == 0;
        assert m == {k};
      }
    }
  }

  /**
   * The clean-up after a copy `b` of `file` is added: `file` itself, when it
   * is not one of its own backups, survives; nothing is added or changed.
   */
  lemma CleanupAfterCopy(files: Files, file: Path, b: Path, v: File)
    requires file in files && file != b && file !in MatchingBackups(files[b := v], file)
    ensures var r := CleanupOf(files[b := v], file);
      && file in r && r[file] == files[file]
      && r.Keys <= files.Keys + {b}
      && (forall p :: p in r && p != b ==> r[p] == files[p])
      && (b in r ==> r[b] == v)
  {
    CleanupKeepsNewest(files[b := v], file);
  }

  /**
   * The clean-up of `file`'s backups after a copy `b` is added in another
   * directory leaves the copy, and every file of another directory, as it was.
   */
  lemma CleanupSparesOtherDirectories(files: Files, file: Path, b: Path, v: File)
    requires b.dir != file.dir
    ensures var r := CleanupOf(files[b := v], file);
      && b in r && r[b] == v
      && forall p :: p in files && p.dir != file.dir && p != b ==> p in r && r[p] == files[p]
  {
    CleanupKeepsNewest(files[b := v], file);
  }

  // ---------------------------------------------------------------------------
  // createBackup, restoreBackup, saves, loadLocalData

  /**
   * `createBackup(file, c)` at instant `now`: nothing when backups are off or
   * the file is missing; otherwise a copy at `createBackupPath(now)`, then
   * the clean-up, and the backup path as result.
   */
  ghost function CreateBackupOf(files: Files, file: Path, c: Context, now: nat): (Files, Option<Path>) {
    if !BackupEnabled(c) || file !in files then (files, None)
    else
      var b := BackupPath(c, now);
      (CleanupOf(files[b := File(files[file].content, now)], file), Some(b))
  }

  /** `restoreBackup(backup, original)`: the backup's content moves to the original. */
  function RestoreOf(files: Files, backup: Path, original: Path, now: nat): (r: Result<Files>)
    ensures r.Fail? <==> backup !in files
    ensures r.Fail? ==> r.error == BackupNotFound(backup)
    ensures r.Ok? && backup != original ==>
      && original in r.value && r.value[original].content == files[backup].content
      && backup !in r.value
      && (forall p :: p != backup && p != original ==> (p in r.value <==> p in files))
      && (forall p :: p in r.value && p != original ==> r.value[p] == files[p])
  {
    if backup !in files then Fail(BackupNotFound(backup))
    else Ok(files[original := File(files[backup].content, now)] - {backup})
  }

  /**
   * `saveADIFData(data, outputPath, c)`: the target is `outputPath` or the
   * context's ADIF file; an existing target is backed up first.
   */
  ghost function SaveAdifOf(files: Files, data: string, outputPath: Option<Path>, c: Context, now: nat): Files {
    var target := if outputPath.Some? then outputPath.value else c.adifFile;
    var before := if target in files then CreateBackupOf(files, target, c, now).0 else files;
    before[target := File(Text(data), now)]
  }

  /** The target of `saveJSONData`: `outputPath`, else the context's JSON file. */
  function JsonTarget(outputPath: Option<Path>, c: Option<Context>): (r: Result<Path>)
    ensures r.Fail? <==> outputPath.None? && c.None?
  {
    if outputPath.Some? then Ok(outputPath.value)
    else if c.Some? then Ok(c.value.jsonFile)
    else Fail(NoOutputPath)
  }

  /**
   * `saveJSONData(doc, outputPath, c)`: a backup of an existing target only
   * when a context is given, then the document written.
   */
  ghost function SaveJsonOf(files: Files, doc: Snapshot, outputPath: Option<Path>, c: Option<Context>, now: nat): Result<Files> {
    var target :- JsonTarget(outputPath, c);
    var before := if target in files && c.Some? then CreateBackupOf(files, target, c.value, now).0 else files;
    Ok(before[target := File(Json(doc), now)])
  }

  /** `loadLocalData(path)`: the document, or None when the file is missing or holds no JSON document. */
  function LoadLocalDataOf(files: Files, path: Path): (r: Option<Snapshot>)
    ensures r.Some? <==> path in files && files[path].content.Json?
    ensures r.Some? ==> r.value == files[path].content.doc
  {
    if path in files && files[path].content.Json? then Some(files[path].content.doc) else None
  }

  // ---------------------------------------------------------------------------
  // Properties of the operations

  /** No backup is taken when backups are off or the file is missing; nothing changes then. */
  lemma CreateBackupDisabled(files: Files, file: Path, c: Context, now: nat)
    requires !BackupEnabled(c) || file !in files
    ensures CreateBackupOf(files, file, c, now) == (files, None)
  {
  }

  /**
   * A backup, when taken, holds the file's content at `createBackupPath(now)`
   * and is not removed by the clean-up that follows it, provided every
   * earlier backup of the file is older than `now`.
   */
  lemma CreateBackupCopies(files: Files, file: Path, c: Context, now: nat)
    requires BackupEnabled(c) && file in files
    requires forall p :: p in MatchingBackups(files, file) ==> files[p].mtime < now
    ensures var (r, b) := CreateBackupOf(files, file, c, now);
      b == Some(BackupPath(c, now)) && b.value in r && r[b.value] == File(files[file].content, now)
  {
    var b := BackupPath(c, now);
    var f1 := files[b := File(files[file].content, now)];
    var m := MatchingBackups(f1, file);
    CleanupKeepsNewest(f1, file);
    if b in m && |m| > 1 {
      var k := Newest(f1, m);
      if k != b {
        // `k` is an earlier backup, older than the copy it would outrank
        assert false;
      }
    }
  }

  /**
   * A copy not named like a backup of the file itself (the JSON file's
   * copy, which is named after the QSO data file) always survives the
   * clean-up, whatever the modification times.
   */
  lemma ForeignBackupKept(files: Files, file: Path, c: Context, now: nat)
    requires BackupEnabled(c) && file in files
    requires var (name, ext) := NameAndExt(file.name);
      !(BackupPath(c, now).dir == file.dir && IsBackupName(name, ext, BackupPath(c, now).name))
    ensures var (r, b) := CreateBackupOf(files, file, c, now);
      b == Some(BackupPath(c, now)) && b.value in r && r[b.value] == File(files[file].content, now)
  {
    var b := BackupPath(c, now);
    CleanupKeepsNewest(files[b := File(files[file].content, now)], file);
  }

  /** A save leaves the data at its target. */
  lemma SaveAdifWrites(files: Files, data: string, outputPath: Option<Path>, c: Context, now: nat)
    ensures var target := if outputPath.Some? then outputPath.value else c.adifFile;
      var r := SaveAdifOf(files, data, outputPath, c, now);
      target in r && r[target].content == Text(data)
  {
  }

  /** Without a context a JSON save never backs anything up: only the target changes. */
  lemma SaveJsonWithoutContext(files: Files, doc: Snapshot, outputPath: Path, now: nat)
    ensures SaveJsonOf(files, doc, Some(outputPath), None, now) == Ok(files[outputPath := File(Json(doc), now)])
  {
  }

  /** What a JSON save writes, a later load reads back. */
  lemma SaveThenLoad(files: Files, doc: Snapshot, outputPath: Option<Path>, c: Option<Context>, now: nat)
    requires outputPath.Some? || c.Some?
    ensures var target := JsonTarget(outputPath, c).value;
      SaveJsonOf(files, doc, outputPath, c, now).Ok?
      && LoadLocalDataOf(SaveJsonOf(files, doc, outputPath, c, now).value, target) == Some(doc)
  {
  }

  // ---------------------------------------------------------------------------
  // The file system

  class FileStore {
    var files: Files
    var clock: nat

    /** No file is newer than the clock. */
    ghost predicate Valid()
      reads this
    {
      forall p :: p in files ==> files[p].mtime <= clock
    }

    constructor (initial: Files, now: nat)
      requires forall p :: p in initial ==> initial[p].mtime <= now
      ensures Valid() && files == initial && clock == now
    {
      files := initial;
      clock := now;
    }

    /** `fs.existsSync(path)`. */
    function Exists(path: Path): (r: bool)
      reads this
      ensures r <==> path in files
    {
      path in files
    }

    /** The clock reads `now`, which is not earlier than any previous reading. */
    method Advance(now: nat)
      requires Valid() && clock <= now
      modifies this
      ensures Valid() && clock == now && files == old(files)
    {
      clock := now;
    }

    /** `cleanupOldBackups(file)`: delete every matching backup but the newest. */
    method CleanupOldBackups(file: Path)
      requires Valid()
      modifies this
      ensures Valid() && clock == old(clock)
      ensures files == CleanupOf(old(files), file)
    {
      var current := files;
      var matching := MatchingBackups(current, file);
      if |matching| <= 1 {
        return;
      }
      // sort newest first: find the one to keep
      var keep :| keep in matching;
      var unseen := matching - {keep};
      LexLeRefl(keep.name);
      while unseen != {}
        invariant unseen <= matching && keep in matching && keep !in unseen
        invariant forall q :: q in matching - unseen ==> NewerOrSame(current, keep, q)
        invariant files == current && clock == old(clock)
        decreases unseen
      {
        var q :| q in unseen;
        if !NewerOrSame(current, keep, q) {
          LexLeTotal(keep.name, q.name);
          forall r | r in matching - unseen ensures NewerOrSame(current, q, r) {
            NewerOrSameTransitive(current, r, keep, q);
          }
          LexLeRefl(q.name);
          keep := q;
        }
        unseen := unseen - {q};
      }
      NewestUnique(current, matching, keep, Newest(current, matching));
      // delete all but the newest
      var doomed := matching - {keep};
      ghost var gone: set<Path> := {};
      PrunedNothing(current, keep);
      while doomed != {}
        invariant gone + doomed == matching - {keep} && gone !! doomed
        invariant files == Pruned(current, gone, keep)
        invariant Valid() && clock == old(clock)
        decreases doomed
      {
        var p :| p in doomed;
        PrunedGrow(current, gone, keep, p);
        files := files - {p};
        gone := gone + {p};
        doomed := doomed - {p};
      }
      PrunedKeep(current, matching, keep);
    }

    /** `createBackup(file, c)` with `Date.now()` reading `now`. */
    method CreateBackup(file: Path, c: Context, now: nat) returns (backup: Option<Path>)
      requires Valid() && clock <= now
      modifies this
      ensures Valid() && clock == now
      ensures (files, backup) == CreateBackupOf(old(files), file, c, now)
    {
      clock := now;
      if !BackupEnabled(c) || file !in files {
        return None;
      }
      var b := BackupPath(c, now);
      files := files[b := File(files[file].content, now)];
      CleanupOldBackups(file);
      backup := Some(b);
    }

    /** `restoreBackup(backup, original)`. */
    method RestoreBackup(backup: Path, original: Path, now: nat) returns (r: Result<()>)
      requires Valid() && clock <= now
      modifies this
      ensures Valid() && clock == now
      ensures var spec := RestoreOf(old(files), backup, original, now);
        (r.Fail? <==> spec.Fail?) && (r.Fail? ==> r.error == spec.error && files == old(files))
        && (r.Ok? ==> files == spec.value)
    {
      clock := now;
      if backup !in files {
        return Fail(BackupNotFound(backup));
      }
      files := files[original := File(files[backup].content, now)];
      files := files - {backup};
      r := Ok(());
    }

    /** `saveADIFData(data, outputPath, c)`; returns the path written. */
    method SaveADIFData(data: string, outputPath: Option<Path>, c: Context, now: nat) returns (path: Path)
      requires Valid() && clock <= now
      modifies this
      ensures Valid() && clock == now
      ensures path == (if outputPath.Some? then outputPath.value else c.adifFile)
      ensures files == SaveAdifOf(old(files), data, outputPath, c, now)
    {
      path := if outputPath.Some? then outputPath.value else c.adifFile;
      if path in files {
        var _ := CreateBackup(path, c, now);
      } else {
        clock := now;
      }
      files := files[path := File(Text(data), now)];
    }

    /** `saveJSONData(doc, outputPath, c)`; returns the path written. */
    method SaveJSONData(doc: Snapshot, outputPath: Option<Path>, c: Option<Context>, now: nat) returns (r: Result<Path>)
      requires Valid() && clock <= now
      modifies this
      ensures Valid() && clock == now
      ensures r == JsonTarget(outputPath, c)
      ensures r.Fail? ==> files == old(files)
      ensures r.Ok? ==> SaveJsonOf(old(files), doc, outputPath, c, now) == Ok(files)
    {
      clock := now;
      r := JsonTarget(outputPath, c);
      if r.Fail? {
        return;
      }
      var path := r.value;
      if path in files && c.Some? {
        var _ := CreateBackup(path, c.value, now);
      }
      files := files[path := File(Json(doc), now)];
    }

    /** `loadLocalData(path)`. */
    method LoadLocalData(path: Path) returns (data: Option<Snapshot>)
      ensures data == LoadLocalDataOf(files, path)
    {
      data := if path in files && files[path].content.Json? then Some(files[path].content.doc) else None;
    }
  }
}
