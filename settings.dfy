/** `SettingsManager` of `src/shared/settings.js`: the user's preferences held in
    memory as a plain object, merged over the defaults when loaded, merged with
    updates, reset, and persisted through lowdb to `settings.json`. */
module Settings {
  import opened Js

  /** `this.defaultSettings` for a given user-data directory (lines 14-19). */
  function Defaults(userDataPath: string): (d: Object)
    ensures d.Keys == {"dbPath", "defaultPath", "theme", "lastBackup"}
    ensures !Truthy(Get(d, "dbPath"))
  {
    map["dbPath" := Str(""), "defaultPath" := Str(userDataPath), "theme" := Str("light"), "lastBackup" := Null]
  }

  // Loading (lines 37-40) is `Spread(defaults, stored)`; an update (lines 75-78) is
  // `Spread(current, newSettings)`.

  /** `getDatabasePath`: the custom `dbPath` when it is truthy, else the user-data directory. */
  function DatabasePath(settings: Object, userDataPath: string): (p: Json)
    ensures Truthy(Get(settings, "dbPath")) ==> p == settings["dbPath"]
    ensures !Truthy(Get(settings, "dbPath")) ==> p == Str(userDataPath)
    ensures userDataPath != "" ==> Truthy(Some(p))
  {
    if !Truthy(Get(settings, "dbPath")) then Str(userDataPath) else settings["dbPath"]
  }

  /** With the defaults, or after a reset, the database lives in the user-data directory. */
  lemma DefaultDatabasePath(userDataPath: string)
    ensures DatabasePath(Defaults(userDataPath), userDataPath) == Str(userDataPath)
  {
  }

  /** An update with a truthy `dbPath` selects it; an update without `dbPath` keeps the selection. */
  lemma UpdatedDatabasePath(current: Object, newSettings: Object, userDataPath: string)
    ensures Truthy(Get(newSettings, "dbPath")) ==> DatabasePath(Spread(current, newSettings), userDataPath) == newSettings["dbPath"]
    ensures "dbPath" !in newSettings ==> DatabasePath(Spread(current, newSettings), userDataPath) == DatabasePath(current, userDataPath)
    ensures "dbPath" in newSettings && !Truthy(Get(newSettings, "dbPath")) ==> DatabasePath(Spread(current, newSettings), userDataPath) == Str(userDataPath)
  {
    var s := Spread(current, newSettings);
    if "dbPath" in newSettings {
      assert Get(s, "dbPath") == Get(newSettings, "dbPath");
    } else {
      assert Get(s, "dbPath") == Get(current, "dbPath");
    }
  }

  /** Two updates in a row leave the settings as one update with the second merged over the first. */
  lemma UpdatesCompose(current: Object, first: Object, second: Object)
    ensures Spread(Spread(current, first), second) == Spread(current, Spread(first, second))
  {
    var l := Spread(Spread(current, first), second);
    var r := Spread(current, Spread(first, second));
    assert l.Keys == r.Keys;
    forall k | k in l
      ensures l[k] == r[k]
    {
    }
  }

  /** Repeating an update changes nothing. */
  lemma UpdateIdempotent(current: Object, newSettings: Object)
    ensures Spread(Spread(current, newSettings), newSettings) == Spread(current, newSettings)
  {
    UpdatesCompose(current, newSettings, newSettings);
    assert Spread(newSettings, newSettings) == newSettings;
  }

  /** Settings that already hold every default key load back unchanged:
      what an update saved is what the next `initialize` reads. */
  lemma ReloadIsIdentity(defaults: Object, stored: Object)
    requires defaults.Keys <= stored.Keys
    ensures Spread(defaults, stored) == stored
  {
    var l := Spread(defaults, stored);
    assert l.Keys == stored.Keys;
    forall k | k in l
      ensures l[k] == stored[k]
    {
    }
  }

  /** The manager. `this.db` is `hasDb` with `dbData` (`this.db.data`); the
      content of `settings.json` is `saved` (`None` while there is no file).
      lowdb and `fs/promises` are reduced to whether each call succeeds. */
  class SettingsManager {
    const userDataPath: string
    const defaultSettings: Object
    var settings: Object
    var hasDb: bool
    var dbData: Object
    var saved: Option<Object>

    /** The settings always hold every default key. */
    predicate Valid()
      reads this
    {
      defaultSettings == Defaults(userDataPath) && defaultSettings.Keys <= settings.Keys
    }

    /** Lines 11-22: the defaults, no database yet. */
    constructor(userDataPath: string, onDisk: Option<Object>)
      ensures Valid()
      ensures this.userDataPath == userDataPath && settings == Defaults(userDataPath)
      ensures !hasDb && saved == onDisk
    {
      this.userDataPath := userDataPath;
      defaultSettings := Defaults(userDataPath);
      settings := Defaults(userDataPath);
      hasDb := false;
      dbData := map[];
      saved := onDisk;
    }

    /** Lines 27-59. lowdb's `read` keeps the default data when the file holds
        nothing; a failed read or a failed write falls back to the defaults, and
        the fallback writes the defaults once more. It never throws. */
    method Initialize(readOk: bool, writeOk: bool, retryWriteOk: bool) returns (r: Object)
      requires Valid()
      modifies this
      ensures Valid() && hasDb && r == settings
      ensures readOk && writeOk ==>
        && settings == Spread(defaultSettings, if old(saved).Some? then old(saved).value else defaultSettings)
        && dbData == settings && saved == Some(settings)
      ensures !(readOk && writeOk) ==>
        && settings == defaultSettings && dbData == defaultSettings
        && saved == (if retryWriteOk then Some(defaultSettings) else old(saved))
    {
      hasDb := true;
      dbData := defaultSettings;
      assert Spread(defaultSettings, map[]) == defaultSettings;
      if readOk {
        if saved.Some? {
          dbData := saved.value;
        }
        settings := Spread(defaultSettings, dbData);
        dbData := settings;
        if writeOk {
          saved := Some(dbData);
          return settings;
        }
      }
      // the inner catch
      dbData := defaultSettings;
      if retryWriteOk {
        saved := Some(dbData);
        settings := Spread(defaultSettings, map[]);
        return settings;
      }
      // the outer catch
      settings := Spread(defaultSettings, map[]);
      return settings;
    }

    /** `getSettings`: a copy of the settings, so every default key is in it. */
    function GetSettings(): (r: Object)
      reads this
      ensures r == settings
      ensures Valid() ==> defaultSettings.Keys <= r.Keys
    {
      Spread(settings, map[])
    }

    /** `getDatabasePath` (lines 114-121). */
    function GetDatabasePath(): (p: Json)
      reads this
      ensures Truthy(Get(settings, "dbPath")) ==> p == settings["dbPath"]
      ensures !Truthy(Get(settings, "dbPath")) ==> p == Str(userDataPath)
    {
      DatabasePath(settings, userDataPath)
    }

    /** Lines 72-109. A truthy `dbPath` must be accessible or creatable, or the
        call throws before anything changes; otherwise the merge is kept in
        memory even when the save that follows fails. */
    method UpdateSettings(newSettings: Object, accessOk: bool, mkdirOk: bool, writeOk: bool) returns (r: Outcome<Object>)
      requires Valid()
      modifies this
      ensures Valid() && hasDb == old(hasDb)
      ensures Truthy(Get(newSettings, "dbPath")) && !accessOk && !mkdirOk ==>
        && r == Threw(DirectoryUnavailable(newSettings["dbPath"]))
        && settings == old(settings) && dbData == old(dbData) && saved == old(saved)
      ensures !(Truthy(Get(newSettings, "dbPath")) && !accessOk && !mkdirOk) ==>
        && settings == Spread(old(settings), newSettings)
        && dbData == (if hasDb then settings else old(dbData))
        && saved == (if hasDb && writeOk then Some(settings) else old(saved))
        && r == (if hasDb && !writeOk then Threw(WriteFailed) else Returned(settings))
    {
      var updated := Spread(settings, newSettings);
      if Truthy(Get(newSettings, "dbPath")) {
        if !accessOk {
          if !mkdirOk {
            return Threw(DirectoryUnavailable(newSettings["dbPath"]));
          }
        }
      }
      settings := updated;
      if hasDb {
        dbData := updated;
        if !writeOk {
          return Threw(WriteFailed);
        }
        saved := Some(dbData);
      }
      return Returned(settings);
    }

    /** Lines 125-137: back to the defaults; the new state does not depend on the
        old settings, so a second reset changes nothing more. */
    method ResetToDefaults(writeOk: bool) returns (r: Outcome<Object>)
      requires Valid()
      modifies this
      ensures Valid() && hasDb == old(hasDb)
      ensures settings == defaultSettings
      ensures dbData == (if hasDb then defaultSettings else old(dbData))
      ensures saved == (if hasDb && writeOk then Some(defaultSettings) else old(saved))
      ensures r == (if hasDb && !writeOk then Threw(WriteFailed) else Returned(defaultSettings))
    {
      settings := Spread(defaultSettings, map[]);
      if hasDb {
        dbData := settings;
        if !writeOk {
          return Threw(WriteFailed);
        }
        saved := Some(dbData);
      }
      return Returned(settings);
    }
  }
}
