/**
 * The configuration context of index.js: the base configuration merged with
 * the caller's options, the precomputed data directory and file paths, the
 * backup-file naming rule, and the update-frequency check. Loading the
 * configuration file itself is not modelled: the base configuration is a
 * parameter, and so are the working directory and `STATS_DATA_PATH`.
 */
module ConfigContext {
  import opened Text
  import opened Common
  import opened Snapshots

  /** A configuration value: a string, a number, a boolean, or anything else. */
  datatype Value = Str(s: string) | Num(n: real) | Flag(b: bool) | Other

  type Config = map<string, Value>

  /**
   * `{ ...baseConfig }` overwritten by every option whose value is not
   * `undefined` (an option is `None` when it is `undefined`).
   */
  method MergeOptions(base: Config, options: map<string, Option<Value>>) returns (merged: Config)
    ensures forall k :: k in merged <==> k in base || (k in options && options[k].Some?)
    ensures forall k :: k in merged ==>
      merged[k] == if k in options && options[k].Some? then options[k].value else base[k]
  {
    merged := base;
    var pending := options.Keys;
    while pending != {}
      invariant pending <= options.Keys
      invariant forall k :: k in merged <==> k in base || (k in options && k !in pending && options[k].Some?)
      invariant forall k :: k in merged ==>
        merged[k] == if k in options && k !in pending && options[k].Some? then options[k].value else base[k]
      decreases pending
    {
      var k :| k in pending;
      if options[k].Some? {
        merged := merged[k := options[k].value];
      }
      pending := pending - {k};
    }
  }

  // ---------------------------------------------------------------------------
  // Paths

  /** `path.resolve(base, p)` for a plain name or an absolute path; `.`/`..` segments are not normalised. */
  function Resolve(base: string, p: string): string {
    if |p| > 0 && p[0] == '/' then p else base + "/" + p
  }

  /** Index of the last `ch` in `s`, if any. */
  function LastIndex(s: string, ch: char): (r: Option<nat>)
    ensures r.Some? ==> r.value < |s| && s[r.value] == ch
    ensures r.Some? ==> forall k :: r.value < k < |s| ==> s[k] != ch
    ensures r.None? ==> forall k :: 0 <= k < |s| ==> s[k] != ch
  {
    if s == [] then None
    else if s[|s| - 1] == ch then Some(|s| - 1)
    else LastIndex(s[..|s| - 1], ch)
  }

  /** `path.basename(p)`: what follows the last `/`, or all of `p` when it has none. */
  function Basename(p: string): (r: string)
    ensures |r| <= |p| && r == p[|p| - |r|..]
    ensures forall k :: 0 <= k < |r| ==> r[k] != '/'
    ensures (forall k :: 0 <= k < |p| ==> p[k] != '/') ==> r == p
  {
    match LastIndex(p, '/')
    case None => p
    case Some(i) => p[i + 1..]
  }

  /**
   * A resolved file path split as `path.dirname` and `path.basename` split
   * it: the directory is what precedes the last `/`, the root when that
   * `/` is the first character.
   */
  function SplitPath(full: string): (r: Path)
    ensures r.name == Basename(full)
  {
    match LastIndex(full, '/')
    case None => Path("", full)
    case Some(i) => Path(if i == 0 then "/" else full[..i], full[i + 1..])
  }

  /** `path.resolve(base, setting)` for a file setting, as a directory and a file name. */
  function FilePath(base: string, setting: string): Path {
    SplitPath(Resolve(base, setting))
  }

  /**
   * A file setting names the file after its own last component, whatever
   * directory it carries; a plain name puts the file in the base directory.
   */
  lemma FilePathParts(base: string, setting: string)
    ensures FilePath(base, setting).name == Basename(setting)
    ensures base != [] && (forall k :: 0 <= k < |setting| ==> setting[k] != '/') ==>
      FilePath(base, setting) == Path(base, setting)
  {
    if |setting| == 0 || setting[0] != '/' {
      JoinedBasename(base, setting);
      if base != [] && forall k :: 0 <= k < |setting| ==> setting[k] != '/' {
        JoinedPlain(base, setting);
      }
    }
  }

  /** Joining a relative setting to a base keeps the setting's base name. */
  lemma JoinedBasename(base: string, setting: string)
    ensures Basename(base + "/" + setting) == Basename(setting)
  {
    LastIndexAfter(base + "/", setting, '/');
    if LastIndex(setting, '/').None? {
      assert LastIndex(base + "/", '/') == Some(|base|);
      assert (base + "/" + setting)[|base| + 1..] == setting;
    } else {
      var i := LastIndex(setting, '/').value;
      assert (base + "/" + setting)[|base| + 1 + i + 1..] == setting[i + 1..];
    }
  }

  /** A plain name joined to a non-empty base splits back into the base and the name. */
  lemma JoinedPlain(base: string, setting: string)
    requires base != []
    requires forall k :: 0 <= k < |setting| ==> setting[k] != '/'
    ensures SplitPath(base + "/" + setting) == Path(base, setting)
  {
    var full := base + "/" + setting;
    LastIndexAfter(base + "/", setting, '/');
    assert LastIndex(base + "/", '/') == Some(|base|);
    assert full[..|base|] == base;
    assert full[|base| + 1..] == setting;
  }

  /** The last `ch` of `a + b`: in `b` when `b` holds one, else the last one of `a`. */
  lemma {:induction false} LastIndexAfter(a: string, b: string, ch: char)
    ensures LastIndex(b, ch).Some? ==> LastIndex(a + b, ch) == Some(|a| + LastIndex(b, ch).value)
    ensures LastIndex(b, ch).None? ==> LastIndex(a + b, ch) == LastIndex(a, ch)
  {
    if b == [] {
      assert a + b == a;
    } else {
      assert (a + b)[..|a + b| - 1] == a + b[..|b| - 1];
      LastIndexAfter(a, b[..|b| - 1], ch);
    }
  }

  /**
   * A relative setting with a directory part puts the file below the base
   * directory, never in it.
   */
  lemma NestedSettingLeavesBase(base: string, setting: string)
    requires |setting| > 0 && setting[0] != '/'
    requires exists k :: 0 <= k < |setting| && setting[k] == '/'
    ensures |FilePath(base, setting).dir| > |base|
  {
    var full := Resolve(base, setting);
    assert full == (base + "/") + setting;
    LastIndexAfter(base + "/", setting, '/');
  }

  /**
   * `path.parse(file)`'s `name` and `ext`: the extension starts at the last
   * dot, unless there is none, the dot opens the name, or the name is `..`.
   */
  function NameAndExt(file: string): (r: (string, string))
    ensures r.0 + r.1 == file
    ensures r.1 == [] || (r.1[0] == '.' && r.0 != [])
  {
    match LastIndex(file, '.')
    case None => (file, "")
    case Some(i) => if i == 0 || file == ".." then (file, "") else (file[..i], file[i..])
  }

  /** Where `getPath` points: the data directory itself, or a file in it. */
  datatype Location = Directory(dir: string) | FileAt(path: Path)

  /** The context object: the merged configuration and the precomputed paths. */
  datatype Context = Context(config: Config, dataDir: string, adifFile: Path, jsonFile: Path, qsoDataFile: string)

  /** `process.env.STATS_DATA_PATH || mergedConfig.localDataPath`. */
  function DataPathSetting(config: Config, env: Option<string>): Option<string> {
    if env.Some? && env.value != "" then Some(env.value)
    else if "localDataPath" in config && config["localDataPath"].Str? then Some(config["localDataPath"].s)
    else None
  }

  /** A string setting, or None when it is missing or not a string. */
  function StrSetting(config: Config, key: string): Option<string> {
    if key in config && config[key].Str? then Some(config[key].s) else None
  }

  /** The merged configuration that `MergeOptions` computes. */
  function Merged(base: Config, options: map<string, Option<Value>>): Config {
    map k | k in base.Keys + (set o | o in options && options[o].Some?) ::
      if k in options && options[k].Some? then options[k].value else base[k]
  }

  /**
   * `createConfigContext` without the loading of the configuration file:
   * merge the options, choose the data directory, and resolve the two data
   * files in it. A path setting that is not a string makes `path.resolve`
   * throw, the data directory first.
   */
  method CreateConfigContext(base: Config, options: map<string, Option<Value>>, env: Option<string>, cwd: string)
    returns (r: Result<Context>)
    ensures var m := Merged(base, options);
      r.Ok? <==> DataPathSetting(m, env).Some? && StrSetting(m, "qsoDataFile").Some? && StrSetting(m, "lotwDataFile").Some?
    ensures var m := Merged(base, options);
      r.Fail? ==> r.error == InvalidSetting(
        if DataPathSetting(m, env).None? then "localDataPath"
        else if StrSetting(m, "qsoDataFile").None? then "qsoDataFile" else "lotwDataFile")
    ensures r.Ok? ==> var c := r.value;
      && c.config == Merged(base, options)
      && c.dataDir == Resolve(cwd, DataPathSetting(c.config, env).value)
      && c.qsoDataFile == StrSetting(c.config, "qsoDataFile").value
      && c.adifFile == FilePath(c.dataDir, c.qsoDataFile)
      && c.jsonFile == FilePath(c.dataDir, StrSetting(c.config, "lotwDataFile").value)
  {
    var merged := MergeOptions(base, options);
    assert merged == Merged(base, options);
    var dataPath := DataPathSetting(merged, env);
    if dataPath.None? {
      return Fail(InvalidSetting("localDataPath"));
    }
    var basePath := Resolve(cwd, dataPath.value);
    var qsoDataFile := StrSetting(merged, "qsoDataFile");
    if qsoDataFile.None? {
      return Fail(InvalidSetting("qsoDataFile"));
    }
    var lotwDataFile := StrSetting(merged, "lotwDataFile");
    if lotwDataFile.None? {
      return Fail(InvalidSetting("lotwDataFile"));
    }
    r := Ok(Context(merged, basePath, FilePath(basePath, qsoDataFile.value), FilePath(basePath, lotwDataFile.value), qsoDataFile.value));
  }

  /** The data directory is `STATS_DATA_PATH` when it is set and not empty, and `localDataPath` otherwise. */
  lemma DataDirectoryChoice(config: Config, env: Option<string>)
    ensures env.Some? && env.value != "" ==> DataPathSetting(config, env) == env
    ensures (env.None? || env.value == "") ==> DataPathSetting(config, env) == StrSetting(config, "localDataPath")
  {
  }

  /** `getPath`: the three known kinds, and an error for any other. */
  function GetPath(c: Context, kind: string): (r: Result<Location>)
    ensures r.Fail? <==> kind !in {"data", "adif", "json"}
    ensures r.Fail? ==> r.error == UnknownPathType(kind)
    ensures kind == "data" ==> r == Ok(Directory(c.dataDir))
    ensures kind == "adif" ==> r == Ok(FileAt(c.adifFile))
    ensures kind == "json" ==> r == Ok(FileAt(c.jsonFile))
  {
    if kind == "data" then Ok(Directory(c.dataDir))
    else if kind == "adif" then Ok(FileAt(c.adifFile))
    else if kind == "json" then Ok(FileAt(c.jsonFile))
    else Fail(UnknownPathType(kind))
  }

  /**
   * `createBackupPath(timestamp)`: `<name>_<timestamp>.bak<ext>` in the data
   * directory, named after the QSO data file's last component whatever is
   * being backed up and whatever directory the setting names.
   */
  function BackupPath(c: Context, timestamp: nat): Path {
    var (name, ext) := NameAndExt(Basename(c.qsoDataFile));
    Path(c.dataDir, name + "_" + NatToString(timestamp) + ".bak" + ext)
  }

  /** The file-name pattern `^<name>_\d+\.bak<ext>$` that backup clean-up looks for. */
  predicate IsBackupName(name: string, ext: string, file: string) {
    var tail := ".bak" + ext;
    && |name| + 1 + |tail| < |file|
    && file[..|name| + 1] == name + "_"
    && file[|file| - |tail|..] == tail
    && AllDigits(file[|name| + 1..|file| - |tail|])
  }

  /** The backup path lies in the data directory, matches the backup pattern of the QSO data file, and depends only on the timestamp. */
  lemma BackupPathShape(c: Context, timestamp: nat)
    ensures BackupPath(c, timestamp).dir == c.dataDir
    ensures var (name, ext) := NameAndExt(Basename(c.qsoDataFile)); IsBackupName(name, ext, BackupPath(c, timestamp).name)
  {
    var (name, ext) := NameAndExt(Basename(c.qsoDataFile));
    BackupNameMatches(name, ext, NatToString(timestamp));
  }

  /** `<name>_<digits>.bak<ext>` matches the backup pattern of `<name><ext>`. */
  lemma BackupNameMatches(name: string, ext: string, d: string)
    requires d != [] && AllDigits(d)
    ensures IsBackupName(name, ext, name + "_" + d + ".bak" + ext)
  {
    var file := name + "_" + d + ".bak" + ext;
    assert file == (name + "_") + d + (".bak" + ext);
    assert file[|name| + 1..|file| - |".bak" + ext|] == d;
  }

  /** Backups taken at different milliseconds get different paths. */
  lemma BackupPathsDiffer(c: Context, t1: nat, t2: nat)
    requires t1 != t2
    ensures BackupPath(c, t1) != BackupPath(c, t2)
  {
    var (name, ext) := NameAndExt(Basename(c.qsoDataFile));
    var d1, d2 := NatToString(t1), NatToString(t2);
    var n1, n2 := name + "_" + d1 + ".bak" + ext, name + "_" + d2 + ".bak" + ext;
    assert n1 == (name + "_") + d1 + (".bak" + ext);
    assert n2 == (name + "_") + d2 + (".bak" + ext);
    if n1 == n2 {
      DigitsBetween(name + "_", d1, ".bak" + ext, d2);
      assert false;
    }
  }

  /** The digits in `p + d + q` are fixed once the text around them is, for `q` starting with a non-digit. */
  lemma DigitsBetween(p: string, d1: string, q: string, d2: string)
    requires AllDigits(d1) && AllDigits(d2) && q != [] && !IsDigit(q[0])
    requires p + d1 + q == p + d2 + q
    ensures d1 == d2
  {
    var s := p + d1 + q;
    assert s[|p| + |d1|] == q[0];
    assert s[|p| + |d2|] == q[0];
    assert forall k :: 0 <= k < |d1| ==> s[|p| + k] == d1[k];
    assert forall k :: 0 <= k < |d2| ==> s[|p| + k] == d2[k];
    assert |d1| == |d2|;
    assert d1 == s[|p|..|p| + |d1|];
  }

  // ---------------------------------------------------------------------------
  // Update frequency

  /**
   * `shouldSkipUpdate(lastUpdateTime)` at instant `now`: false for a falsy
   * time or a non-positive interval, otherwise whether fewer hours than the
   * configured `timestampCheckInterval` have passed. An invalid date makes
   * the difference NaN, and an interval that is not a number never compares
   * as greater.
   */
  function ShouldSkipUpdate(config: Config, lastUpdate: Option<Stamp>, now: int): bool {
    if lastUpdate.None? || lastUpdate.value.text == "" then false
    else if "timestampCheckInterval" !in config || !config["timestampCheckInterval"].Num? then false
    else
      var interval := config["timestampCheckInterval"].n;
      if interval <= 0.0 then false
      else match lastUpdate.value.instant
        case None => false
        case Some(t) => (now - t) as real / 3600000.0 < interval
  }

  /**
   * An update is skipped exactly when a valid last-update time is present
   * and less than `timestampCheckInterval` hours (of 3600000 ms) lie between it and now.
   */
  lemma ShouldSkipUpdateIff(config: Config, lastUpdate: Option<Stamp>, now: int)
    ensures ShouldSkipUpdate(config, lastUpdate, now) <==>
      && lastUpdate.Some? && lastUpdate.value.text != "" && lastUpdate.value.instant.Some?
      && "timestampCheckInterval" in config && config["timestampCheckInterval"].Num?
      && config["timestampCheckInterval"].n > 0.0
      && ((now - lastUpdate.value.instant.value) as real) < config["timestampCheckInterval"].n * 3600000.0
  {
    if lastUpdate.Some? && lastUpdate.value.instant.Some? && "timestampCheckInterval" in config && config["timestampCheckInterval"].Num? {
      var d := (now - lastUpdate.value.instant.value) as real;
      var n := config["timestampCheckInterval"].n;
      assert d / 3600000.0 < n <==> d < n * 3600000.0;
    }
  }
}
