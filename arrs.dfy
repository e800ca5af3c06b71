/** The category logic of arrs.py: which download folder a `.magnet` file's
    location maps to, which folders are watched, and which are created. The
    environment variables are fields of `ArrConfig`. */
module Arrs {
  import opened Wrappers
  import opened Pystr
  import Paths

  /** `SONARR`, `RADARR`, `ARR_TORRENTS_PATH` and `ARR_DOWNLOAD_PATH`. */
  datatype ArrConfig = ArrConfig(sonarr: Option<string>, radarr: Option<string>, torrentPath: string, downloadPath: string)

  /** `bool(os.getenv(name))`: set and not empty (so "false" and "0" enable). */
  predicate Enabled(env: Option<string>) {
    env.Some? && env.value != []
  }

  function RadarrFolder(cfg: ArrConfig): string {
    Paths.Join(cfg.torrentPath, "radarr")
  }

  function SonarrFolder(cfg: ArrConfig): string {
    Paths.Join(cfg.torrentPath, "sonarr")
  }

  /** `get_arr_folder(file_path)` (arrs.py:42-58): the radarr download folder
      when the normalised path starts with the normalised radarr folder, else
      the sonarr download folder when it starts with the sonarr one, else None.
      The test is a plain string prefix. */
  function GetArrFolder(cfg: ArrConfig, filePath: string): Option<string> {
    Classify(Paths.NormPath(filePath), Paths.NormPath(RadarrFolder(cfg)), Paths.NormPath(SonarrFolder(cfg)), cfg.downloadPath)
  }

  /** The answer for a normalised path, given the normalised folders. */
  function Classify(p: string, radarrPrefix: string, sonarrPrefix: string, downloadPath: string): Option<string> {
    if StartsWith(p, radarrPrefix) then Some(Paths.Join(downloadPath, "radarr"))
    else if StartsWith(p, sonarrPrefix) then Some(Paths.Join(downloadPath, "sonarr"))
    else None
  }

  /** The two download folders differ, in their last letters. */
  lemma DownloadFoldersDiffer(downloadPath: string)
    ensures Paths.Join(downloadPath, "radarr") != Paths.Join(downloadPath, "sonarr")
  {
    var r := Paths.Join(downloadPath, "radarr");
    var s := Paths.Join(downloadPath, "sonarr");
    assert |r| == |s|;
    assert r[|r| - 6] == 'r' && s[|s| - 6] == 's';
  }

  /** The three answers and exactly when each is given: radarr first, then
      sonarr only for a path that is not under the radarr prefix. */
  lemma GetArrFolderCases(cfg: ArrConfig, filePath: string)
    ensures var p := Paths.NormPath(filePath);
      var r := GetArrFolder(cfg, filePath);
      (r == Some(Paths.Join(cfg.downloadPath, "radarr")) <==> StartsWith(p, Paths.NormPath(RadarrFolder(cfg)))) &&
      (r == Some(Paths.Join(cfg.downloadPath, "sonarr")) <==>
         !StartsWith(p, Paths.NormPath(RadarrFolder(cfg))) && StartsWith(p, Paths.NormPath(SonarrFolder(cfg)))) &&
      (r == None <==>
         !StartsWith(p, Paths.NormPath(RadarrFolder(cfg))) && !StartsWith(p, Paths.NormPath(SonarrFolder(cfg))))
  {
    DownloadFoldersDiffer(cfg.downloadPath);
  }

  /** A file directly in folder `c` under the torrent path normalises to the
      folder's normal form, then '/', then the file's name. */
  lemma FileUnderFolder(t: string, c: string, name: string)
    requires t != [] && Paths.PlainComponent(c) && Paths.PlainComponent(name)
    ensures Paths.NormPath(Paths.Join(Paths.Join(t, c), name)) == Paths.Base(t) + c + "/" + name
    ensures Paths.NormPath(Paths.Join(t, c)) == Paths.Base(t) + c
  {
    Paths.NormPathJoin2(t, c, name);
    Paths.NormPathJoin(t, c);
  }

  /** A path that continues a folder whose name starts with "radarr" is
      classified as radarr. */
  lemma ClassifyRadarr(b: string, c: string, name: string, sonarrPrefix: string, downloadPath: string)
    requires StartsWith(c, "radarr")
    ensures Classify(b + c + "/" + name, b + "radarr", sonarrPrefix, downloadPath) == Some(Paths.Join(downloadPath, "radarr"))
  {
    var p := b + c + "/" + name;
    assert p[..|b + "radarr"|] == b + "radarr" by {
      assert p[..|b|] == b;
      assert forall k :: |b| <= k < |b| + 6 ==> p[k] == c[k - |b|];
    }
  }

  /** A path that continues the sonarr folder is classified as sonarr: it
      leaves the radarr prefix at the folder's first letter. */
  lemma ClassifySonarr(b: string, name: string, downloadPath: string)
    ensures Classify(b + "sonarr" + "/" + name, b + "radarr", b + "sonarr", downloadPath) == Some(Paths.Join(downloadPath, "sonarr"))
  {
    var p := b + "sonarr" + "/" + name;
    assert p[|b|] == 's';
    assert (b + "radarr")[|b|] == 'r';
    assert p[..|b + "sonarr"|] == b + "sonarr";
  }

  /** A file in the radarr folder goes to the radarr download folder. */
  lemma RadarrFileClassified(cfg: ArrConfig, name: string)
    requires cfg.torrentPath != [] && Paths.PlainComponent(name)
    ensures GetArrFolder(cfg, Paths.Join(RadarrFolder(cfg), name)) == Some(Paths.Join(cfg.downloadPath, "radarr"))
  {
    FileUnderFolder(cfg.torrentPath, "radarr", name);
    ClassifyRadarr(Paths.Base(cfg.torrentPath), "radarr", name, Paths.NormPath(SonarrFolder(cfg)), cfg.downloadPath);
  }

  /** A file in the sonarr folder goes to the sonarr download folder. */
  lemma SonarrFileClassified(cfg: ArrConfig, name: string)
    requires cfg.torrentPath != [] && Paths.PlainComponent(name)
    ensures GetArrFolder(cfg, Paths.Join(SonarrFolder(cfg), name)) == Some(Paths.Join(cfg.downloadPath, "sonarr"))
  {
    FileUnderFolder(cfg.torrentPath, "sonarr", name);
    FileUnderFolder(cfg.torrentPath, "radarr", name);
    ClassifySonarr(Paths.Base(cfg.torrentPath), name, cfg.downloadPath);
  }

  /** The prefix test ignores component boundaries: a file in a sibling folder
      whose name merely starts with "radarr" (say "radarr4k") also goes to the
      radarr download folder. */
  lemma RadarrPrefixWithoutBoundary(cfg: ArrConfig, folder: string, name: string)
    requires cfg.torrentPath != [] && Paths.PlainComponent(folder) && StartsWith(folder, "radarr")
    requires Paths.PlainComponent(name)
    ensures GetArrFolder(cfg, Paths.Join(Paths.Join(cfg.torrentPath, folder), name))
            == Some(Paths.Join(cfg.downloadPath, "radarr"))
  {
    FileUnderFolder(cfg.torrentPath, folder, name);
    FileUnderFolder(cfg.torrentPath, "radarr", name);
    ClassifyRadarr(Paths.Base(cfg.torrentPath), folder, name, Paths.NormPath(SonarrFolder(cfg)), cfg.downloadPath);
  }

  // ------------------------------------------------------ watched folders

  /** The `enabled` dictionary of arrs.py:17-20 and 32-35, in its order. */
  function Entries(cfg: ArrConfig): seq<(string, bool)> {
    [("sonarr", Enabled(cfg.sonarr)), ("radarr", Enabled(cfg.radarr))]
  }

  /** The keys of the entries that are enabled, in order. */
  function EnabledKeys(entries: seq<(string, bool)>): seq<string> {
    if entries == [] then []
    else
      var last := entries[|entries| - 1];
      EnabledKeys(entries[..|entries| - 1]) + (if last.1 then [last.0] else [])
  }

  /** `os.path.join(root, key)` for each key. */
  function Under(root: string, keys: seq<string>): (folders: seq<string>)
    ensures |folders| == |keys|
  {
    seq(|keys|, k requires 0 <= k < |keys| => Paths.Join(root, keys[k]))
  }

  lemma UnderSnoc(root: string, keys: seq<string>, key: string)
    ensures Under(root, keys + [key]) == Under(root, keys) + [Paths.Join(root, key)]
  {
    var all := keys + [key];
    forall k | 0 <= k < |all|
      ensures Under(root, all)[k] == (Under(root, keys) + [Paths.Join(root, key)])[k]
    {
      if k < |keys| {
        assert all[k] == keys[k];
      }
    }
  }

  /** The watched keys: sonarr then radarr, each only when enabled. */
  lemma EnabledKeysOrder(cfg: ArrConfig)
    ensures EnabledKeys(Entries(cfg)) ==
      (if Enabled(cfg.sonarr) then ["sonarr"] else []) + (if Enabled(cfg.radarr) then ["radarr"] else [])
  {
    var e := Entries(cfg);
    assert e[..1][..0] == [];
    assert e[..|e| - 1] == e[..1];
    assert EnabledKeys(e[..1]) == EnabledKeys([]) + (if e[0].1 then [e[0].0] else []);
  }

  /** `monitored_folders()` (arrs.py:31-40) */
  method MonitoredFolders(cfg: ArrConfig) returns (monitored: seq<string>)
    ensures monitored == Under(cfg.torrentPath, EnabledKeys(Entries(cfg)))
  {
    var enabled := Entries(cfg);
    monitored := [];
    for i := 0 to |enabled|
      invariant monitored == Under(cfg.torrentPath, EnabledKeys(enabled[..i]))
    {
      var (key, value) := enabled[i];
      EnabledKeysSnoc(enabled, i);
      if value {
        UnderSnoc(cfg.torrentPath, EnabledKeys(enabled[..i]), key);
        monitored := monitored + [Paths.Join(cfg.torrentPath, key)];
      }
    }
    assert enabled[..|enabled|] == enabled;
  }

  /** Every watched folder sorts the files put directly in it into the
      download folder of its own key. */
  lemma MonitoredFolderClassifies(cfg: ArrConfig, k: nat, name: string)
    requires cfg.torrentPath != [] && Paths.PlainComponent(name)
    requires k < |EnabledKeys(Entries(cfg))|
    ensures var key := EnabledKeys(Entries(cfg))[k];
      var folder := Under(cfg.torrentPath, EnabledKeys(Entries(cfg)))[k];
      GetArrFolder(cfg, Paths.Join(folder, name)) == Some(Paths.Join(cfg.downloadPath, key))
  {
    EnabledKeysOrder(cfg);
    var key := EnabledKeys(Entries(cfg))[k];
    if key == "radarr" {
      RadarrFileClassified(cfg, name);
    } else {
      SonarrFileClassified(cfg, name);
    }
  }

  // ------------------------------------------------------ created folders

  /** The torrent and download folders of the given keys. */
  function FoldersOf(cfg: ArrConfig, keys: seq<string>): set<string> {
    (set key | key in keys :: Paths.Join(cfg.torrentPath, key)) + (set key | key in keys :: Paths.Join(cfg.downloadPath, key))
  }

  /** `arrs_folders()` (arrs.py:16-28): both folders of every enabled key are
      created; the set of directories that exist grows by exactly them. */
  method ArrsFolders(cfg: ArrConfig, dirs: set<string>) returns (after: set<string>)
    ensures after == dirs + FoldersOf(cfg, EnabledKeys(Entries(cfg)))
  {
    var enabled := Entries(cfg);
    after := dirs;
    for i := 0 to |enabled|
      invariant after == dirs + FoldersOf(cfg, EnabledKeys(enabled[..i]))
    {
      var (key, value) := enabled[i];
      var torrentFolder := Paths.Join(cfg.torrentPath, key);
      var downloadFolder := Paths.Join(cfg.downloadPath, key);
      EnabledKeysSnoc(enabled, i);
      if value {
        FoldersOfSnoc(cfg, EnabledKeys(enabled[..i]), key);
        after := after + {torrentFolder} + {downloadFolder};
      }
    }
    assert enabled[..|enabled|] == enabled;
  }

  /** One more entry adds its key when it is enabled. */
  lemma EnabledKeysSnoc(entries: seq<(string, bool)>, i: nat)
    requires i < |entries|
    ensures EnabledKeys(entries[..i + 1]) ==
      EnabledKeys(entries[..i]) + (if entries[i].1 then [entries[i].0] else [])
  {
    assert entries[..i + 1][..i] == entries[..i];
  }

  /** One more key adds its two folders. */
  lemma FoldersOfSnoc(cfg: ArrConfig, keys: seq<string>, key: string)
    ensures FoldersOf(cfg, keys + [key]) ==
      FoldersOf(cfg, keys) + {Paths.Join(cfg.torrentPath, key)} + {Paths.Join(cfg.downloadPath, key)}
  {
  }

  /** After `arrs_folders`, every watched folder exists, and so does every
      download folder that a file put directly in one of them is sent to. */
  lemma CreatedCoversMonitored(cfg: ArrConfig, k: nat, name: string)
    requires cfg.torrentPath != [] && Paths.PlainComponent(name)
    requires k < |EnabledKeys(Entries(cfg))|
    ensures var folder := Under(cfg.torrentPath, EnabledKeys(Entries(cfg)))[k];
      var created := FoldersOf(cfg, EnabledKeys(Entries(cfg)));
      var dest := GetArrFolder(cfg, Paths.Join(folder, name));
      folder in created && dest.Some? && dest.value in created
  {
    MonitoredFolderClassifies(cfg, k, name);
    var keys := EnabledKeys(Entries(cfg));
    assert keys[k] in keys;
  }
}
