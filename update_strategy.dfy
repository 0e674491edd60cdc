/**
 * lib/update-strategy.js: the choice between a full download, an
 * incremental one and no update at all, the full update, and
 * `updateDXCCData`, which loads the local snapshot, decides and dispatches.
 */
module UpdateStrategy {
  import opened Text
  import opened Common
  import opened Snapshots
  import opened ConfigContext
  import opened FileManager
  import opened Remote
  import AdifParser
  import IncrementalUpdater

  datatype Strategy = Full | Skip | Incremental

  /** Why a strategy was chosen; a recent update carries the `queryInterval` setting its message quotes. */
  datatype Reason =
    | Forced
    | NoLocalData
    | RecentUpdate(interval: Option<Value>)
    | Incomplete
    | MissingTimestamps
    | Complete

  datatype Decision = Decision(strategy: Strategy, reason: Reason)

  /** `configContext.get(key)`: the setting, or undefined. */
  function Setting(config: Config, key: string): (v: Option<Value>)
    ensures v.Some? <==> key in config
    ensures v.Some? ==> v.value == config[key]
  {
    if key in config then Some(config[key]) else None
  }

  /** A non-blank string member, as `x && typeof x === 'string' && x.trim() !== ''` tests it. */
  predicate HasTimestamp(t: Option<string>) {
    t.Some? && Trim(t.value) != ""
  }

  /** A non-empty `dxcc_stats` object. */
  predicate HasStats(s: Snapshot) {
    s.dxccStats.Entries? && s.dxccStats.entries != map[]
  }

  /** What an incremental update needs of the local snapshot: statistics and at least one download timestamp. */
  predicate IncrementalReady(s: Snapshot) {
    HasStats(s) && (HasTimestamp(s.lastQsoRx) || HasTimestamp(s.lastQsl))
  }

  /**
   * `determineUpdateStrategy(localData, c, {full})` at instant `now`. A
   * recent update is skipped before the snapshot's completeness is looked at.
   */
  function DetermineUpdateStrategy(localData: Option<Snapshot>, config: Config, full: bool, now: int): (d: Decision)
    ensures d.strategy == Skip <==> !full && localData.Some? && ShouldSkipUpdate(config, localData.value.lastUpdated, now)
    ensures d.strategy == Incremental <==>
      !full && localData.Some? && !ShouldSkipUpdate(config, localData.value.lastUpdated, now) && IncrementalReady(localData.value)
    ensures d.strategy == Full <==>
      full || localData.None? || (!ShouldSkipUpdate(config, localData.value.lastUpdated, now) && !IncrementalReady(localData.value))
    ensures d.reason == Forced <==> full
    ensures d.reason == NoLocalData <==> !full && localData.None?
  {
    if full then Decision(Full, Forced)
    else if localData.None? then Decision(Full, NoLocalData)
    else
      var s := localData.value;
      if s.lastUpdated.Some? && s.lastUpdated.value.text != "" && ShouldSkipUpdate(config, s.lastUpdated, now) then
        Decision(Skip, RecentUpdate(Setting(config, "queryInterval")))
      else if !HasStats(s) then Decision(Full, Incomplete)
      else if !HasTimestamp(s.lastQsoRx) && !HasTimestamp(s.lastQsl) then Decision(Full, MissingTimestamps)
      else Decision(Incremental, Complete)
  }

  /** A decision to skip also holds at any earlier instant: the skip window is an interval ending some hours after the last update. */
  lemma SkipHoldsEarlier(localData: Option<Snapshot>, config: Config, full: bool, now: int, earlier: int)
    requires earlier <= now
    ensures DetermineUpdateStrategy(localData, config, full, now).strategy == Skip ==>
      DetermineUpdateStrategy(localData, config, full, earlier).strategy == Skip
  {
    if localData.Some? && localData.value.lastUpdated.Some? && localData.value.lastUpdated.value.instant.Some? {
      var t := localData.value.lastUpdated.value.instant.value;
      ShouldSkipUpdateIff(config, localData.value.lastUpdated, now);
      ShouldSkipUpdateIff(config, localData.value.lastUpdated, earlier);
      assert (earlier - t) as real <= (now - t) as real;
    }
  }

  /**
   * A snapshot just written by a parse with readings `parsed` is skipped, whatever it
   * holds, as long as fewer than `timestampCheckInterval` hours (a positive
   * number) have passed; after that it is updated incrementally exactly
   * when it has statistics and a download timestamp.
   */
  lemma FreshSnapshotDecision(adif: string, parsed: AdifParser.ParseClock, config: Config, now: int)
    requires "timestampCheckInterval" in config && config["timestampCheckInterval"].Num?
    requires config["timestampCheckInterval"].n > 0.0
    ensures var s := AdifParser.SnapshotOf(adif, parsed);
      var d := DetermineUpdateStrategy(Some(s), config, false, now);
      && (d.strategy == Skip <==> ((now - parsed.iso) as real) < config["timestampCheckInterval"].n * 3600000.0)
      && (d.strategy == Incremental <==>
          ((now - parsed.iso) as real) >= config["timestampCheckInterval"].n * 3600000.0 && IncrementalReady(s))
  {
    AdifParser.FreshSnapshotSkips(adif, parsed, config, now);
  }

  // ---------------------------------------------------------------------------
  // performFullUpdate

  /**
   * `performFullUpdate`: credentials are required; the whole log is
   * downloaded from `qsoBeginDate` on, saved at instant `now` to `adifPath`
   * or the context's ADI file, and parsed with the readings `t`; the result
   * carries the change of each total since the snapshot on disk.
   */
  ghost function FullUpdateOf(files: Files, username: string, password: string, c: Context,
                              adifPath: Option<Path>, fetch: Fetch, now: nat, t: AdifParser.ParseClock): (Files, Result<Snapshot>)
  {
    if username == "" || password == "" then (files, Fail(CredentialsRequired))
    else
      var localData := LoadLocalDataOf(files, c.jsonFile);
      var got := fetch(Everything(username, password, Setting(c.config, "qsoBeginDate")));
      if got.Fail? then (files, Fail(got.error))
      else
        var target := if adifPath.Some? then adifPath.value else c.adifFile;
        var saved := SaveAdifOf(files, got.value, Some(target), c, now);
        var s := AdifParser.SnapshotOf(got.value, t);
        (saved[c.jsonFile := File(Json(s), t.ms)], Ok(s.(incremental := Some(DeltaOf(localData, s)))))
  }

  method PerformFullUpdate(store: FileStore, username: string, password: string, c: Context,
                           adifPath: Option<Path>, fetch: Fetch, now: nat, t: AdifParser.ParseClock) returns (r: Result<Snapshot>)
    requires store.Valid() && store.clock <= now <= t.iso <= t.ms
    modifies store
    ensures store.Valid()
    ensures (store.files, r) == FullUpdateOf(old(store.files), username, password, c, adifPath, fetch, now, t)
  {
    var adifFilePath := if adifPath.Some? then adifPath.value else c.adifFile;
    if username == "" || password == "" {
      return Fail(CredentialsRequired);
    }
    var localData := store.LoadLocalData(c.jsonFile);
    var result := fetch(Everything(username, password, Setting(c.config, "qsoBeginDate")));
    if result.Fail? {
      return Fail(result.error);
    }
    adifFilePath := store.SaveADIFData(result.value, Some(adifFilePath), c, now);
    var parsedResult := AdifParser.ParseADIFToJSON(store, adifFilePath, c, t);
    // the file has just been written, so reading it back cannot fail
    if parsedResult.Fail? {
      assert false;
    }
    r := Ok(parsedResult.value.(incremental := Some(DeltaOf(localData, parsedResult.value))));
  }

  /**
   * A full update with credentials and a download returns the snapshot of
   * the download and saves it, less the change statistics, to the JSON
   * file: the next run reads back what this one reported.
   */
  lemma FullUpdateSaves(files: Files, username: string, password: string, c: Context,
                        adifPath: Option<Path>, fetch: Fetch, now: nat, t: AdifParser.ParseClock, data: string)
    requires username != "" && password != ""
    requires fetch(Everything(username, password, Setting(c.config, "qsoBeginDate"))) == Ok(data)
    ensures var (f, r) := FullUpdateOf(files, username, password, c, adifPath, fetch, now, t);
      && r.Ok? && r.value == AdifParser.SnapshotOf(data, t).(incremental := r.value.incremental)
      && LoadLocalDataOf(f, c.jsonFile) == Some(AdifParser.SnapshotOf(data, t))
  {
  }

  /** The download itself is saved to `adifPath`, or else to the context's ADI file. */
  lemma FullUpdateKeepsDownload(files: Files, username: string, password: string, c: Context,
                                adifPath: Option<Path>, fetch: Fetch, now: nat, t: AdifParser.ParseClock, data: string)
    requires username != "" && password != ""
    requires fetch(Everything(username, password, Setting(c.config, "qsoBeginDate"))) == Ok(data)
    ensures var f := FullUpdateOf(files, username, password, c, adifPath, fetch, now, t).0;
      var target := if adifPath.Some? then adifPath.value else c.adifFile;
      target != c.jsonFile ==> target in f && f[target].content == Text(data)
  {
    var target := if adifPath.Some? then adifPath.value else c.adifFile;
    FullUpdateFiles(files, username, password, c, adifPath, fetch, now, t, data);
    SaveAdifWrites(files, data, Some(target), c, now);
  }

  /** The files a successful full update leaves: the saved download, then the JSON of its parse. */
  lemma FullUpdateFiles(files: Files, username: string, password: string, c: Context,
                        adifPath: Option<Path>, fetch: Fetch, now: nat, t: AdifParser.ParseClock, data: string)
    requires username != "" && password != ""
    requires fetch(Everything(username, password, Setting(c.config, "qsoBeginDate"))) == Ok(data)
    ensures var target := if adifPath.Some? then adifPath.value else c.adifFile;
      FullUpdateOf(files, username, password, c, adifPath, fetch, now, t).0
      == SaveAdifOf(files, data, Some(target), c, now)[c.jsonFile := File(Json(AdifParser.SnapshotOf(data, t)), t.ms)]
  {
  }

  /** Without both credentials the full update fails at once and touches nothing. */
  lemma FullUpdateNeedsCredentials(files: Files, username: string, password: string, c: Context,
                                   adifPath: Option<Path>, fetch: Fetch, now: nat, t: AdifParser.ParseClock)
    ensures username == "" || password == "" ==>
      FullUpdateOf(files, username, password, c, adifPath, fetch, now, t) == (files, Fail(CredentialsRequired))
  {
  }

  // ---------------------------------------------------------------------------
  // updateDXCCData

  /** What `updateDXCCData` returns: the local snapshot, when skipped, or the new one. */
  datatype Update = Skipped(reason: Reason, data: Snapshot) | Updated(result: Snapshot)

  function AsUpdate(r: Result<Snapshot>): (u: Result<Update>)
    ensures u.Ok? <==> r.Ok?
    ensures r.Ok? ==> u.value == Updated(r.value)
    ensures r.Fail? ==> u.error == r.error
  {
    if r.Fail? then Fail(r.error) else Ok(Updated(r.value))
  }

  /**
   * `updateDXCCData({full, adifPath})`: the decision is taken at instant
   * `now`; a full update saves at `now` and parses with the readings `t`,
   * an incremental one runs with the clock readings `k`, its merges saving
   * through the context `mc`.
   */
  ghost function UpdateOf(files: Files, username: string, password: string, c: Context, mc: Context, full: bool,
                          adifPath: Option<Path>, fetch: Fetch, now: nat, t: AdifParser.ParseClock,
                          k: IncrementalUpdater.Readings): (Files, Result<Update>)
  {
    var localData := LoadLocalDataOf(files, c.jsonFile);
    var d := DetermineUpdateStrategy(localData, c.config, full, now);
    match d.strategy
    case Skip => (files, Ok(Skipped(d.reason, localData.value)))
    case Full =>
      var (f, r) := FullUpdateOf(files, username, password, c, adifPath, fetch, now, t);
      (f, AsUpdate(r))
    case Incremental =>
      var (f, r) := IncrementalUpdater.IncrementalOf(files, username, password, localData.value, c, mc, fetch, k);
      (f, AsUpdate(r))
  }

  /** `updateDXCCData` as written: an incremental update is `performIncrementalUpdate`, its merges saving through `c`. */
  method UpdateDXCCData(store: FileStore, username: string, password: string, c: Context, full: bool,
                        adifPath: Option<Path>, fetch: Fetch, now: nat, t: AdifParser.ParseClock,
                        k: IncrementalUpdater.Readings) returns (r: Result<Update>)
    requires store.Valid() && store.clock <= now <= t.iso <= t.ms && now <= k.backup && IncrementalUpdater.Ascending(k)
    modifies store
    ensures store.Valid()
    ensures (store.files, r) == UpdateOf(old(store.files), username, password, c, c, full, adifPath, fetch, now, t, k)
  {
    var localData := store.LoadLocalData(c.jsonFile);
    var strategyResult := DetermineUpdateStrategy(localData, c.config, full, now);
    match strategyResult.strategy
    case Skip =>
      r := Ok(Skipped(strategyResult.reason, localData.value));
    case Full =>
      var result := PerformFullUpdate(store, username, password, c, adifPath, fetch, now, t);
      r := AsUpdate(result);
    case Incremental =>
      var result := IncrementalUpdater.PerformIncrementalUpdate(store, username, password, localData.value, c, fetch, k);
      r := AsUpdate(result);
  }

  /** `updateDXCCData` dispatching to the incremental update whose rollback keeps its backup. */
  method UpdateDXCCDataSafely(store: FileStore, username: string, password: string, c: Context, full: bool,
                              adifPath: Option<Path>, fetch: Fetch, now: nat, t: AdifParser.ParseClock,
                              k: IncrementalUpdater.Readings) returns (r: Result<Update>)
    requires store.Valid() && store.clock <= now <= t.iso <= t.ms && now <= k.backup && IncrementalUpdater.Ascending(k)
    modifies store
    ensures store.Valid()
    ensures (store.files, r) == UpdateOf(old(store.files), username, password, c, IncrementalUpdater.WithoutMergeBackups(c),
                                         full, adifPath, fetch, now, t, k)
  {
    var localData := store.LoadLocalData(c.jsonFile);
    var strategyResult := DetermineUpdateStrategy(localData, c.config, full, now);
    match strategyResult.strategy
    case Skip =>
      r := Ok(Skipped(strategyResult.reason, localData.value));
    case Full =>
      var result := PerformFullUpdate(store, username, password, c, adifPath, fetch, now, t);
      r := AsUpdate(result);
    case Incremental =>
      var result := IncrementalUpdater.PerformIncrementalUpdateSafely(store, username, password, localData.value, c, fetch, k);
      r := AsUpdate(result);
  }

  /** A skipped update changes no file and hands back the snapshot on disk. */
  lemma SkipChangesNothing(files: Files, username: string, password: string, c: Context, mc: Context, full: bool,
                           adifPath: Option<Path>, fetch: Fetch, now: nat, t: AdifParser.ParseClock,
                           k: IncrementalUpdater.Readings)
    ensures var (f, r) := UpdateOf(files, username, password, c, mc, full, adifPath, fetch, now, t, k);
      r.Ok? && r.value.Skipped? ==>
        f == files && LoadLocalDataOf(files, c.jsonFile) == Some(r.value.data) && r.value.reason.RecentUpdate?
  {
  }

  /** A forced update is the full update, whatever is on disk. */
  lemma ForcedIsFull(files: Files, username: string, password: string, c: Context, mc: Context,
                     adifPath: Option<Path>, fetch: Fetch, now: nat, t: AdifParser.ParseClock,
                     k: IncrementalUpdater.Readings)
    ensures var (f, r) := FullUpdateOf(files, username, password, c, adifPath, fetch, now, t);
      UpdateOf(files, username, password, c, mc, true, adifPath, fetch, now, t, k) == (f, AsUpdate(r))
  {
  }
}
