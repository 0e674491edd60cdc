/**
 * `performIncrementalUpdate` (lib/incremental-updater.js): back up the ADI
 * file, append the QSOs and reconcile the QSL reports downloaded since the
 * last update, recount the records, reparse the file into a fresh snapshot,
 * and on any error restore the backup and report the error.
 *
 * The pipeline is a method over the file store; `StepsOf` and
 * `IncrementalOf` state, as functions of the file map before it, what the
 * `try` block and the whole update leave behind. The `Date.now()` readings
 * of the successive steps are the fields of a `Readings` value.
 */
module IncrementalUpdater {
  import opened Text
  import opened Common
  import opened Snapshots
  import opened ConfigContext
  import opened FileManager
  import opened TimestampUtils
  import opened AdifProcessor
  import AdifParser
  import opened Remote

  /** The clock readings of one update: the backup, the two merges, the recount, the reparse and a restore. */
  datatype Readings = Readings(backup: nat, qsoMerge: nat, qslMerge: nat, recount: nat, parse: AdifParser.ParseClock, restore: nat)

  /** The clock never runs backwards. */
  predicate Ascending(k: Readings) {
    k.backup <= k.qsoMerge <= k.qslMerge <= k.recount <= k.parse.iso <= k.parse.ms <= k.restore
  }

  /** The largest distance from the epoch, in milliseconds, that a JavaScript `Date` can hold. */
  const MaxTime: int := 8_640_000_000_000_000

  /**
   * `new Date(lastUpdateTimestamp).toISOString()` does not throw: the
   * timestamp is present and within the range of a `Date`.
   */
  predicate ValidSince(since: Option<int>) {
    since.Some? && -MaxTime <= since.value <= MaxTime
  }

  /** `data && data.trim()`: the download holds more than whitespace. */
  predicate HasData(data: string) {
    Trim(data) != ""
  }

  /** A context built by `createConfigContext`: the ADI file is the QSO data file resolved against the data directory. */
  predicate Resolved(c: Context) {
    c.adifFile == FilePath(c.dataDir, c.qsoDataFile)
  }

  /** The ADI file lies in the data directory, where its backups are written. */
  predicate InDataDirectory(c: Context) {
    c.adifFile.dir == c.dataDir
  }

  /** The QSO step: a download with data is merged into the ADI file, which must exist. */
  ghost function QsoMerged(files: Files, data: string, adif: Path, mc: Context, now: nat): Result<Files> {
    if !HasData(data) then Ok(files)
    else if adif !in files then Fail(AdifNotFound(adif))
    else Ok(SaveAdifOf(files, MergedAdifText(TextOf(files[adif].content), data, GeneratedText(now)), None, mc, now))
  }

  /** The QSL step: a download with data is reconciled into the ADI file, which must exist. */
  ghost function QslMerged(files: Files, data: string, adif: Path, mc: Context, now: nat): Result<Files> {
    if !HasData(data) then Ok(files)
    else if adif !in files then Fail(AdifNotFound(adif))
    else Ok(SaveAdifOf(files, MergedQslText(TextOf(files[adif].content), data, GeneratedText(now)), None, mc, now))
  }

  /** The recount and the reparse that end the steps, with the statistics of what changed. */
  ghost function Finished(files: Files, localData: Snapshot, c: Context, k: Readings): (Files, Result<Snapshot>) {
    var adif := c.adifFile;
    if adif !in files then (files, Fail(AdifNotFound(adif)))
    else
      var recounted := RecountedText(TextOf(files[adif].content));
      var s := AdifParser.SnapshotOf(recounted, k.parse);
      (files[adif := File(Text(recounted), k.recount)][c.jsonFile := File(Json(s), k.parse.ms)],
       Ok(s.(incremental := Some(DeltaOf(Some(localData), s)))))
  }

  /**
   * The `try` block after the backup: the file map it leaves and its
   * outcome, up to the first error. Logging the timestamp as an ISO date
   * throws before any download when it is missing or out of range. The merges save through the context
   * `mc`; everything else uses `c`.
   */
  ghost function StepsOf(files: Files, username: string, password: string, localData: Snapshot,
                         c: Context, mc: Context, fetch: Fetch, k: Readings): (Files, Result<Snapshot>)
  {
    var since := localData.lastUpdatedTimestamp;
    if !ValidSince(since) then (files, Fail(InvalidTime))
    else
    var qso := fetch(QsoSince(username, password, since));
    if qso.Fail? then (files, Fail(qso.error))
    else match QsoMerged(files, qso.value, c.adifFile, mc, k.qsoMerge)
      case Fail(e) => (files, Fail(e))
      case Ok(f1) =>
        var qsl := fetch(QslSince(username, password, since));
        if qsl.Fail? then (f1, Fail(qsl.error))
        else match QslMerged(f1, qsl.value, c.adifFile, mc, k.qslMerge)
          case Fail(e) => (f1, Fail(e))
          case Ok(f2) => Finished(f2, localData, c, k)
  }

  /**
   * The whole update: the backup, the steps, then either the success-path
   * clean-up (the backup is deleted when backups are switched off) or, on
   * an error, the restore from the backup, whose own error wins.
   */
  ghost function IncrementalOf(files: Files, username: string, password: string, localData: Snapshot,
                               c: Context, mc: Context, fetch: Fetch, k: Readings): (Files, Result<Snapshot>)
  {
    var (f0, backup) := CreateBackupOf(files, c.adifFile, c, k.backup);
    var (f, outcome) := StepsOf(f0, username, password, localData, c, mc, fetch, k);
    if outcome.Ok? then
      (if backup.Some? && backup.value in f && !BackupEnabled(c) then f - {backup.value} else f, outcome)
    else if backup.None? then (f, outcome)
    else match RestoreOf(f, backup.value, c.adifFile, k.restore)
      case Fail(e) => (f, Fail(e))
      case Ok(g) => (g, outcome)
  }

  /** The steps of the `try` block after the backup, as the source runs them. */
  method Steps(store: FileStore, username: string, password: string, localData: Snapshot,
               c: Context, mc: Context, fetch: Fetch, k: Readings) returns (r: Result<Snapshot>)
    requires store.Valid() && store.clock <= k.qsoMerge && Ascending(k)
    requires mc.adifFile == c.adifFile
    modifies store
    ensures store.Valid() && store.clock <= k.parse.ms
    ensures (store.files, r) == StepsOf(old(store.files), username, password, localData, c, mc, fetch, k)
  {
    var adifFilePath := c.adifFile;
    var lastUpdateTimestamp := localData.lastUpdatedTimestamp;
    if !ValidSince(lastUpdateTimestamp) {
      return Fail(InvalidTime);
    }
    var incrementalQsoData := fetch(QsoSince(username, password, lastUpdateTimestamp));
    if incrementalQsoData.Fail? {
      return Fail(incrementalQsoData.error);
    }
    var qsoMerged := MergeQsoData(store, incrementalQsoData.value, adifFilePath, mc, k.qsoMerge);
    if qsoMerged.Fail? {
      return Fail(qsoMerged.error);
    }
    var incrementalQslData := fetch(QslSince(username, password, lastUpdateTimestamp));
    if incrementalQslData.Fail? {
      return Fail(incrementalQslData.error);
    }
    var qslMerged := MergeQslData(store, incrementalQslData.value, adifFilePath, mc, k.qslMerge);
    if qslMerged.Fail? {
      return Fail(qslMerged.error);
    }
    r := Finish(store, localData, c, k);
  }

  /** The recount, the reparse and the statistics that end the steps. */
  method Finish(store: FileStore, localData: Snapshot, c: Context, k: Readings) returns (r: Result<Snapshot>)
    requires store.Valid() && store.clock <= k.recount <= k.parse.iso <= k.parse.ms
    modifies store
    ensures store.Valid() && store.clock <= k.parse.ms
    ensures (store.files, r) == Finished(old(store.files), localData, c, k)
  {
    var adifFilePath := c.adifFile;
    var count := UpdateRecordCount(store, adifFilePath, k.recount);
    if count.Fail? {
      return Fail(count.error);
    }
    var result := AdifParser.ParseADIFToJSON(store, adifFilePath, c, k.parse);
    // the recount has just written the file, so reading it back cannot fail
    if result.Fail? {
      assert false;
    }
    var incrementalStats := DeltaOf(Some(localData), result.value);
    r := Ok(result.value.(incremental := Some(incrementalStats)));
  }

  /** The QSO step of the steps: `mergeIncrementalADIFData` when the download holds data. */
  method MergeQsoData(store: FileStore, data: string, adif: Path, mc: Context, now: nat) returns (r: Result<()>)
    requires store.Valid() && store.clock <= now
    modifies store
    ensures store.Valid() && store.clock <= now
    ensures QsoMerged(old(store.files), data, adif, mc, now) == if r.Ok? then Ok(store.files) else Fail(r.error)
    ensures r.Fail? ==> store.files == old(store.files)
  {
    r := Ok(());
    if HasData(data) {
      var merged := MergeIncrementalADIFData(store, data, adif, mc, now);
      if merged.Fail? {
        r := Fail(merged.error);
      }
    }
  }

  /** The QSL step of the steps: `mergeIncrementalQSLDataOnly` when the download holds data. */
  method MergeQslData(store: FileStore, data: string, adif: Path, mc: Context, now: nat) returns (r: Result<()>)
    requires store.Valid() && store.clock <= now
    modifies store
    ensures store.Valid() && store.clock <= now
    ensures QslMerged(old(store.files), data, adif, mc, now) == if r.Ok? then Ok(store.files) else Fail(r.error)
    ensures r.Fail? ==> store.files == old(store.files)
  {
    r := Ok(());
    if HasData(data) {
      var merged := MergeIncrementalQSLDataOnly(store, data, adif, mc, now);
      if merged.Fail? {
        r := Fail(merged.error);
      }
    }
  }

  /**
   * The whole of `performIncrementalUpdate`, with the merges saving through
   * `mc`: the backup, the steps, then the clean-up or the rollback.
   */
  method Pipeline(store: FileStore, username: string, password: string, localData: Snapshot,
                  c: Context, mc: Context, fetch: Fetch, k: Readings) returns (r: Result<Snapshot>)
    requires store.Valid() && store.clock <= k.backup && Ascending(k)
    requires mc.adifFile == c.adifFile
    modifies store
    ensures store.Valid()
    ensures (store.files, r) == IncrementalOf(old(store.files), username, password, localData, c, mc, fetch, k)
  {
    var adifFilePath := c.adifFile;
    var backupPath := store.CreateBackup(adifFilePath, c, k.backup);
    r := Steps(store, username, password, localData, c, mc, fetch, k);
    if r.Ok? {
      if backupPath.Some? && store.Exists(backupPath.value) {
        var shouldKeepBackup := BackupEnabled(c);
        if !shouldKeepBackup {
          // a backup exists only when backups are on, so the source's unlink never runs
          assert false;
        }
      }
      return;
    }
    if backupPath.Some? {
      var restored := store.RestoreBackup(backupPath.value, adifFilePath, k.restore);
      if restored.Fail? {
        r := Fail(restored.error);
      }
    }
  }

  /** `performIncrementalUpdate` as written: the merges save through the update's own context. */
  method PerformIncrementalUpdate(store: FileStore, username: string, password: string, localData: Snapshot,
                                  c: Context, fetch: Fetch, k: Readings) returns (r: Result<Snapshot>)
    requires store.Valid() && store.clock <= k.backup && Ascending(k)
    modifies store
    ensures store.Valid()
    ensures (store.files, r) == IncrementalOf(old(store.files), username, password, localData, c, c, fetch, k)
  {
    r := Pipeline(store, username, password, localData, c, c, fetch, k);
  }

  /** The context the merges should save through: one that takes no backups of its own. */
  function WithoutMergeBackups(c: Context): (m: Context)
    ensures !BackupEnabled(m) && m.adifFile == c.adifFile && m.dataDir == c.dataDir
  {
    c.(config := c.config["qsoDataFileBackup" := Flag(false)])
  }

  /**
   * `performIncrementalUpdate` with its rollback intact: the backup taken
   * at the start is the only one, so a failure restores the file as it was.
   */
  method PerformIncrementalUpdateSafely(store: FileStore, username: string, password: string, localData: Snapshot,
                                        c: Context, fetch: Fetch, k: Readings) returns (r: Result<Snapshot>)
    requires store.Valid() && store.clock <= k.backup && Ascending(k)
    modifies store
    ensures store.Valid()
    ensures (store.files, r) == IncrementalOf(old(store.files), username, password, localData, c, WithoutMergeBackups(c), fetch, k)
  {
    r := Pipeline(store, username, password, localData, c, WithoutMergeBackups(c), fetch, k);
  }

  // ---------------------------------------------------------------------------
  // The backup taken at the start, and what becomes of it

  /** The ADI file is never taken for one of its own backups: a backup name is longer than the file's. */
  lemma AdifIsNotBackup(c: Context, files: Files, t: nat)
    requires Resolved(c)
    ensures c.adifFile !in MatchingBackups(files, c.adifFile)
    ensures c.adifFile != BackupPath(c, t)
  {
    FilePathParts(c.dataDir, c.qsoDataFile);
    var (name, ext) := NameAndExt(c.adifFile.name);
    assert |BackupPath(c, t).name| > |name + ext|;
  }

  /**
   * With backups on, `createBackup` of the ADI file at instant `t` keeps the
   * file, adds the copy `BackupPath(c, t)`, and otherwise only removes
   * files, changing none.
   */
  lemma BackupOfAdif(files: Files, c: Context, t: nat)
    requires Resolved(c) && BackupEnabled(c) && c.adifFile in files
    ensures var (r, b) := CreateBackupOf(files, c.adifFile, c, t);
      && b == Some(BackupPath(c, t))
      && c.adifFile in r && r[c.adifFile] == files[c.adifFile]
      && r.Keys <= files.Keys + {BackupPath(c, t)}
      && (forall p :: p in r && p != BackupPath(c, t) ==> r[p] == files[p])
      && (BackupPath(c, t) in r ==> r[BackupPath(c, t)] == File(files[c.adifFile].content, t))
  {
    var adif := c.adifFile;
    var b := BackupPath(c, t);
    var f1 := files[b := File(files[adif].content, t)];
    AdifIsNotBackup(c, f1, t);
    CleanupAfterCopy(files, adif, b, File(files[adif].content, t));
  }

  /**
   * A later backup of the ADI file, at an instant after every file on
   * disk, prunes every earlier backup: only the newest one survives the
   * clean-up.
   */
  lemma LaterBackupPrunes(files: Files, c: Context, t: nat, earlier: Path)
    requires Resolved(c) && InDataDirectory(c) && BackupEnabled(c) && c.adifFile in files
    requires forall p :: p in files ==> files[p].mtime < t
    requires earlier in files && earlier != BackupPath(c, t)
    requires earlier.dir == c.dataDir && IsBackupName(NameAndExt(c.adifFile.name).0, NameAndExt(c.adifFile.name).1, earlier.name)
    ensures earlier !in CreateBackupOf(files, c.adifFile, c, t).0
  {
    var adif := c.adifFile;
    var b := BackupPath(c, t);
    var f1 := files[b := File(files[adif].content, t)];
    BackupPathShape(c, t);
    FilePathParts(c.dataDir, c.qsoDataFile);
    var m := MatchingBackups(f1, adif);
    assert b in m && earlier in m;
    CleanupKeepsNewest(f1, adif);
    var r := CleanupOf(f1, adif);
    var k :| IsNewest(f1, m, k) && k in r && forall p :: p in m && p in r ==> p == k;
    assert NewerOrSame(f1, k, b);
    assert k == b;
  }

  /**
   * When the QSO data file setting resolves outside the data directory
   * (a setting with a directory part), the clean-up after a backup looks
   * only in the ADI file's own directory: every file of the data
   * directory, earlier backups included, survives it, and so does the new
   * backup.
   */
  lemma OutsideBackupsKept(files: Files, c: Context, t: nat)
    requires Resolved(c) && !InDataDirectory(c) && BackupEnabled(c) && c.adifFile in files
    ensures var (r, b) := CreateBackupOf(files, c.adifFile, c, t);
      && b == Some(BackupPath(c, t)) && b.value in r && r[b.value] == File(files[c.adifFile].content, t)
      && forall p :: p in files && p.dir == c.dataDir && p != BackupPath(c, t) ==> p in r && r[p] == files[p]
  {
    BackupPathShape(c, t);
    CleanupSparesOtherDirectories(files, c.adifFile, BackupPath(c, t), File(files[c.adifFile].content, t));
  }

  /**
   * The success path never deletes the backup: `createBackup` returns a
   * path only when `qsoDataFileBackup` is not `false`, the very setting
   * under which the clean-up keeps it.
   */
  lemma BackupAlwaysKept(files: Files, c: Context, t: nat)
    ensures CreateBackupOf(files, c.adifFile, c, t).1.Some? ==> BackupEnabled(c)
  {
  }

  /**
   * As written, the rollback can lose its backup. The QSO merge saves the
   * ADI file through `saveADIFData` with the update's own context, which
   * takes a second backup and cleans up all but the newest one, deleting
   * the backup the update took at the start. If the QSL download then
   * fails, `restoreBackup` finds no backup: the update reports that
   * instead of the download's error, and the ADI file keeps the merged
   * QSOs.
   */
  lemma LostBackup(files: Files, username: string, password: string, localData: Snapshot,
                   c: Context, fetch: Fetch, k: Readings, data: string, e: Error)
    requires Resolved(c) && InDataDirectory(c) && BackupEnabled(c) && c.adifFile in files && Ascending(k)
    requires forall p :: p in files ==> files[p].mtime < k.backup
    requires k.backup < k.qsoMerge && ValidSince(localData.lastUpdatedTimestamp)
    requires fetch(QsoSince(username, password, localData.lastUpdatedTimestamp)) == Ok(data) && HasData(data)
    requires fetch(QslSince(username, password, localData.lastUpdatedTimestamp)) == Fail(e)
    ensures var (f, r) := IncrementalOf(files, username, password, localData, c, c, fetch, k);
      && r == Fail(BackupNotFound(BackupPath(c, k.backup)))
      && c.adifFile in f
      && f[c.adifFile].content == Text(MergedAdifText(TextOf(files[c.adifFile].content), data, GeneratedText(k.qsoMerge)))
  {
    var adif := c.adifFile;
    var b := BackupPath(c, k.backup);
    BackupOfAdif(files, c, k.backup);
    CreateBackupCopies(files, adif, c, k.backup);
    var f0 := CreateBackupOf(files, adif, c, k.backup).0;
    assert forall p :: p in f0 ==> f0[p].mtime < k.qsoMerge;
    BackupPathShape(c, k.backup);
    FilePathParts(c.dataDir, c.qsoDataFile);
    BackupPathsDiffer(c, k.backup, k.qsoMerge);
    LaterBackupPrunes(f0, c, k.qsoMerge, b);
    AdifIsNotBackup(c, f0, k.backup);
    var f1 := SaveAdifOf(f0, MergedAdifText(TextOf(f0[adif].content), data, GeneratedText(k.qsoMerge)), None, c, k.qsoMerge);
    assert StepsOf(f0, username, password, localData, c, c, fetch, k) == (f1, Fail(e));
    assert b !in f1;
  }

  /**
   * A missing or out-of-range `last_updated_timestamp` makes the steps
   * throw before the first download, whatever the downloads would return.
   * With backups off nothing changes; with backups on the ADI file's
   * content is restored and the error reported.
   */
  lemma InvalidSinceFails(files: Files, username: string, password: string, localData: Snapshot,
                          c: Context, mc: Context, fetch: Fetch, k: Readings)
    requires !ValidSince(localData.lastUpdatedTimestamp)
    ensures StepsOf(files, username, password, localData, c, mc, fetch, k) == (files, Fail(InvalidTime))
    ensures !BackupEnabled(c) ==> IncrementalOf(files, username, password, localData, c, mc, fetch, k) == (files, Fail(InvalidTime))
    ensures Resolved(c) && c.adifFile in files && (forall p :: p in files ==> files[p].mtime < k.backup) ==>
      var (f, r) := IncrementalOf(files, username, password, localData, c, mc, fetch, k);
      r == Fail(InvalidTime) && c.adifFile in f && f[c.adifFile].content == files[c.adifFile].content
  {
    if BackupEnabled(c) && Resolved(c) && c.adifFile in files && (forall p :: p in files ==> files[p].mtime < k.backup) {
      var adif := c.adifFile;
      var b := BackupPath(c, k.backup);
      BackupOfAdif(files, c, k.backup);
      CreateBackupCopies(files, adif, c, k.backup);
      var f0 := CreateBackupOf(files, adif, c, k.backup).0;
      AdifIsNotBackup(c, f0, k.backup);
      assert StepsOf(f0, username, password, localData, c, mc, fetch, k) == (f0, Fail(InvalidTime));
    }
  }

  /**
   * When the merges take no backups of their own, the steps keep every
   * file other than the ADI file as it was, up to the step that fails.
   */
  lemma StepsKeepOthers(files: Files, username: string, password: string, localData: Snapshot,
                        c: Context, mc: Context, fetch: Fetch, k: Readings, p: Path)
    requires !BackupEnabled(mc) && mc.adifFile == c.adifFile
    requires p in files && p != c.adifFile
    ensures var (f, r) := StepsOf(files, username, password, localData, c, mc, fetch, k);
      r.Fail? ==> p in f && f[p] == files[p]
  {
    var since := localData.lastUpdatedTimestamp;
    var qso := fetch(QsoSince(username, password, since));
    if qso.Ok? {
      MergesKeepOthers(files, qso.value, c.adifFile, mc, k.qsoMerge, p);
      var f1 := QsoMerged(files, qso.value, c.adifFile, mc, k.qsoMerge);
      var qsl := fetch(QslSince(username, password, since));
      if f1.Ok? && qsl.Ok? {
        MergesKeepOthers(f1.value, qsl.value, c.adifFile, mc, k.qslMerge, p);
      }
    }
  }

  /** Either merge, saving through a context without backups, changes only the ADI file. */
  lemma MergesKeepOthers(files: Files, data: string, adif: Path, mc: Context, now: nat, p: Path)
    requires !BackupEnabled(mc) && mc.adifFile == adif
    requires p in files && p != adif
    ensures var m := QsoMerged(files, data, adif, mc, now); m.Ok? ==> p in m.value && m.value[p] == files[p]
    ensures var m := QslMerged(files, data, adif, mc, now); m.Ok? ==> p in m.value && m.value[p] == files[p]
  {
  }

  /**
   * With the merges saving through `WithoutMergeBackups(c)`, a failed
   * update puts the ADI file's content back as it was before the update
   * and reports the error of the step that failed: a download, a merge,
   * the recount, or the invalid timestamp (`InvalidSinceFails`).
   */
  lemma RollbackRestores(files: Files, username: string, password: string, localData: Snapshot,
                         c: Context, fetch: Fetch, k: Readings)
    requires Resolved(c) && BackupEnabled(c) && c.adifFile in files
    requires forall p :: p in files ==> files[p].mtime < k.backup
    ensures var mc := WithoutMergeBackups(c);
      var f0 := CreateBackupOf(files, c.adifFile, c, k.backup).0;
      var steps := StepsOf(f0, username, password, localData, c, mc, fetch, k).1;
      var (f, r) := IncrementalOf(files, username, password, localData, c, mc, fetch, k);
      steps.Fail? ==> r == steps && c.adifFile in f && f[c.adifFile].content == files[c.adifFile].content
  {
    var adif := c.adifFile;
    var b := BackupPath(c, k.backup);
    BackupOfAdif(files, c, k.backup);
    CreateBackupCopies(files, adif, c, k.backup);
    var f0 := CreateBackupOf(files, adif, c, k.backup).0;
    AdifIsNotBackup(c, f0, k.backup);
    StepsKeepOthers(f0, username, password, localData, c, WithoutMergeBackups(c), fetch, k, b);
  }

  // ---------------------------------------------------------------------------
  // What the steps compute

  /**
   * A successful recount and reparse reports, besides the reparsed totals,
   * how far each total moved since the local snapshot.
   */
  lemma StepsReportChange(files: Files, localData: Snapshot, c: Context, k: Readings)
    ensures var r := Finished(files, localData, c, k).1;
      r.Ok? ==> && r.value.incremental.Some?
                && r.value.incremental.value.newQsos == OrZero(r.value.totalQso) - OrZero(localData.totalQso)
                && r.value.incremental.value.newQsls == OrZero(r.value.totalQsl) - OrZero(localData.totalQsl)
                && r.value.incremental.value.newDxccs == OrZero(r.value.dxccConfirmed) - OrZero(localData.dxccConfirmed)
  {
    if c.adifFile in files {
      var s := AdifParser.SnapshotOf(RecountedText(TextOf(files[c.adifFile].content)), k.parse);
      var d := DeltaOf(Some(localData), s);
      assert d.newQsos + OrZero(localData.totalQso) == OrZero(s.totalQso);
    }
  }

  /** Every successful run of the steps ends with the recount and the reparse. */
  lemma StepsEndFinished(files: Files, username: string, password: string, localData: Snapshot,
                         c: Context, mc: Context, fetch: Fetch, k: Readings)
    ensures var r := StepsOf(files, username, password, localData, c, mc, fetch, k);
      r.1.Ok? ==> exists f2 :: r == Finished(f2, localData, c, k)
  {
    var since := localData.lastUpdatedTimestamp;
    var qso := fetch(QsoSince(username, password, since));
    if ValidSince(since) && qso.Ok? && QsoMerged(files, qso.value, c.adifFile, mc, k.qsoMerge).Ok? {
      var f1 := QsoMerged(files, qso.value, c.adifFile, mc, k.qsoMerge).value;
      var qsl := fetch(QslSince(username, password, since));
      if qsl.Ok? && QslMerged(f1, qsl.value, c.adifFile, mc, k.qslMerge).Ok? {
        var f2 := QslMerged(f1, qsl.value, c.adifFile, mc, k.qslMerge).value;
        assert StepsOf(files, username, password, localData, c, mc, fetch, k) == Finished(f2, localData, c, k);
      }
    }
  }

  /**
   * When neither download holds data the ADI file is only recounted, and
   * the snapshot is the reparse of the recounted file.
   */
  lemma QuietDownloadsOnlyRecount(files: Files, username: string, password: string, localData: Snapshot,
                                  c: Context, mc: Context, fetch: Fetch, k: Readings, qso: string, qsl: string)
    requires c.adifFile in files && c.adifFile != c.jsonFile && ValidSince(localData.lastUpdatedTimestamp)
    requires fetch(QsoSince(username, password, localData.lastUpdatedTimestamp)) == Ok(qso) && !HasData(qso)
    requires fetch(QslSince(username, password, localData.lastUpdatedTimestamp)) == Ok(qsl) && !HasData(qsl)
    ensures var (f, r) := StepsOf(files, username, password, localData, c, mc, fetch, k);
      var recounted := RecountedText(TextOf(files[c.adifFile].content));
      && c.adifFile in f && f[c.adifFile] == File(Text(recounted), k.recount)
      && r.Ok? && r.value.(incremental := None) == AdifParser.SnapshotOf(recounted, k.parse).(incremental := None)
  {
  }

  /** Only the two downloads since the last update matter: fetches that agree on them give the same update. */
  lemma OnlyTheDownloadsMatter(files: Files, username: string, password: string, localData: Snapshot,
                               c: Context, mc: Context, fetch: Fetch, other: Fetch, k: Readings)
    requires fetch(QsoSince(username, password, localData.lastUpdatedTimestamp))
          == other(QsoSince(username, password, localData.lastUpdatedTimestamp))
    requires fetch(QslSince(username, password, localData.lastUpdatedTimestamp))
          == other(QslSince(username, password, localData.lastUpdatedTimestamp))
    ensures IncrementalOf(files, username, password, localData, c, mc, fetch, k)
         == IncrementalOf(files, username, password, localData, c, mc, other, k)
  {
    var f0 := CreateBackupOf(files, c.adifFile, c, k.backup).0;
    assert StepsOf(f0, username, password, localData, c, mc, fetch, k)
        == StepsOf(f0, username, password, localData, c, mc, other, k);
  }
}
