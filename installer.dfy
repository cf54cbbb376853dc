/** `Installer`: the older install path that downloads a pack's archive, unpacks every entry
    straight into its Quake directory and records the pack it installed. */
module Installers {
  import opened Wrappers
  import opened Text
  import opened Disk
  import opened Configuration
  import opened Seqs

  const DefaultDownloadDir: string := "/home/samuwen/Downloads"
  const DefaultQuakeDir: string := "/home/samuwen/.steam/debian-installation/steamapps/common/Quake/id1/maps"

  /** One record per archive entry, in archive order: its CRC-32 and its lowercased name. */
  function EntryRecords(entries: seq<ZipEntry>): (r: seq<FileInfo>)
    ensures |r| == |entries|
    ensures forall i :: 0 <= i < |entries| ==> r[i] == FileInfo(entries[i].crc, Lower(entries[i].name))
  {
    seq(|entries|, i requires 0 <= i < |entries| => FileInfo(entries[i].crc, Lower(entries[i].name)))
  }

  /** Writing every entry to `{dir}/{lowercased name}` in archive order; the first entry that
      cannot be read or whose file cannot be created panics, and stops the unpacking there. */
  function Unpack(fs: FileSystem, dir: string, entries: seq<ZipEntry>): (r: (bool, FileSystem))
    ensures r.1.locked == fs.locked
    ensures r.0 <==> forall i :: 0 <= i < |entries| ==>
      entries[i].readable && JoinPath(dir, Lower(entries[i].name)) !in fs.locked
    decreases |entries|
  {
    if entries == [] then (true, fs)
    else if !entries[0].readable then (false, fs)
    else
      var (written, fs1) := Create(fs, JoinPath(dir, Lower(entries[0].name)), entries[0].crc);
      if !written then (false, fs1) else Unpack(fs1, dir, entries[1..])
  }

  /** Unpacking only ever adds files: whatever was on disk stays, and every entry that a
      complete unpacking reached is on disk afterwards. */
  lemma {:induction false} UnpackWritesEntries(fs: FileSystem, dir: string, entries: seq<ZipEntry>)
    ensures fs.files.Keys <= Unpack(fs, dir, entries).1.files.Keys
    ensures Unpack(fs, dir, entries).0 ==>
      forall i :: 0 <= i < |entries| ==> JoinPath(dir, Lower(entries[i].name)) in Unpack(fs, dir, entries).1.files
    decreases |entries|
  {
    if entries != [] && entries[0].readable {
      var (written, fs1) := Create(fs, JoinPath(dir, Lower(entries[0].name)), entries[0].crc);
      if written {
        UnpackWritesEntries(fs1, dir, entries[1..]);
        assert forall i :: 1 <= i < |entries| ==> entries[i] == entries[1..][i - 1];
      }
    }
  }

  /** A path that is no entry's target keeps its content, whether or not the unpacking
      completes. */
  lemma {:induction false} UnpackKeeps(fs: FileSystem, dir: string, entries: seq<ZipEntry>, p: string)
    requires forall i :: 0 <= i < |entries| ==> p != JoinPath(dir, Lower(entries[i].name))
    ensures p in Unpack(fs, dir, entries).1.files <==> p in fs.files
    ensures p in fs.files ==> Unpack(fs, dir, entries).1.files[p] == fs.files[p]
    decreases |entries|
  {
    if entries != [] && entries[0].readable {
      var fs1 := Create(fs, JoinPath(dir, Lower(entries[0].name)), entries[0].crc).1;
      assert forall i :: 0 <= i < |entries| - 1 ==> entries[1..][i] == entries[i + 1];
      UnpackKeeps(fs1, dir, entries[1..], p);
    }
  }

  /** After a complete unpacking, each entry's target holds the content of the LAST entry with
      the same lowercased name: a later entry overwrites an earlier one. */
  lemma {:induction false} UnpackWritesLast(fs: FileSystem, dir: string, entries: seq<ZipEntry>, i: nat)
    requires Unpack(fs, dir, entries).0
    requires i < |entries|
    ensures JoinPath(dir, Lower(entries[i].name)) in Unpack(fs, dir, entries).1.files
    ensures exists k :: i <= k < |entries| && Lower(entries[k].name) == Lower(entries[i].name)
                        && Unpack(fs, dir, entries).1.files[JoinPath(dir, Lower(entries[i].name))] == entries[k].crc
                        && forall j :: k < j < |entries| ==> Lower(entries[j].name) != Lower(entries[i].name)
    decreases |entries|
  {
    var name := Lower(entries[i].name);
    var target := JoinPath(dir, name);
    var fs1 := Create(fs, JoinPath(dir, Lower(entries[0].name)), entries[0].crc).1;
    var tail := entries[1..];
    assert forall m :: 0 <= m < |tail| ==> tail[m] == entries[m + 1];
    var later := if i > 0 then i - 1 else FirstIndex(tail, (e: ZipEntry) => Lower(e.name) == name);
    if later < |tail| {
      assert Lower(tail[later].name) == name;
      UnpackWritesLast(fs1, dir, tail, later);
      var k :| later <= k < |tail| && Lower(tail[k].name) == name
                && Unpack(fs1, dir, tail).1.files[target] == tail[k].crc
                && forall j :: k < j < |tail| ==> Lower(tail[j].name) != name;
      assert i <= k + 1 < |entries| && Lower(entries[k + 1].name) == name;
    } else {
      assert forall m :: 0 <= m < |tail| ==> target != JoinPath(dir, Lower(tail[m].name));
      UnpackKeeps(fs1, dir, tail, target);
      assert forall j :: 0 < j < |entries| ==> Lower(entries[j].name) != name;
    }
  }

  /** The paths `uninstall_map` removes, as written: `{quake_dir}/id1/maps/{name}`. */
  function UninstallPaths(quakeDir: string, files: seq<FileInfo>): (r: seq<string>)
    ensures |r| == |files|
    ensures forall i :: 0 <= i < |files| ==> r[i] == quakeDir + "/id1/maps/" + files[i].name
  {
    seq(|files|, i requires 0 <= i < |files| => quakeDir + "/id1/maps/" + files[i].name)
  }

  /** The paths the unpacking wrote, which uninstalling is evidently meant to remove:
      `{quake_dir}/{name}`. */
  function IntendedUninstallPaths(quakeDir: string, files: seq<FileInfo>): (r: seq<string>)
    ensures |r| == |files|
    ensures forall i :: 0 <= i < |files| ==> r[i] == JoinPath(quakeDir, files[i].name)
  {
    seq(|files|, i requires 0 <= i < |files| => JoinPath(quakeDir, files[i].name))
  }

  /** `{dir}/{name}` is also `{dir}/id1/maps/{other}` only when `name` itself starts with
      `id1/maps/`. */
  lemma UninstallPathMisses(dir: string, name: string, other: string)
    requires JoinPath(dir, name) == dir + "/id1/maps/" + other
    ensures |name| >= 9 && name[..9] == "id1/maps/"
  {
    var p := JoinPath(dir, name);
    assert p[|dir| + 1..] == name;
    assert (dir + "/id1/maps/" + other)[|dir| + 1..] == "id1/maps/" + other;
  }

  /** As written, uninstalling after a complete unpacking removes none of the unpacked files
      (unless an entry's own name starts with `id1/maps/`): it looks one `id1/maps` deeper
      than where they were written. */
  lemma UnpackedFilesSurviveUninstall(fs: FileSystem, quakeDir: string, entries: seq<ZipEntry>)
    requires Unpack(fs, quakeDir, entries).0
    requires forall i :: 0 <= i < |entries| ==> !(|Lower(entries[i].name)| >= 9 && Lower(entries[i].name)[..9] == "id1/maps/")
    ensures var after := RemoveAll(Unpack(fs, quakeDir, entries).1, UninstallPaths(quakeDir, EntryRecords(entries)));
            forall i :: 0 <= i < |entries| ==> JoinPath(quakeDir, Lower(entries[i].name)) in after.files
  {
    var unpacked := Unpack(fs, quakeDir, entries).1;
    var paths := UninstallPaths(quakeDir, EntryRecords(entries));
    UnpackWritesEntries(fs, quakeDir, entries);
    forall i | 0 <= i < |entries|
      ensures JoinPath(quakeDir, Lower(entries[i].name)) !in paths
    {
      if JoinPath(quakeDir, Lower(entries[i].name)) in paths {
        var j :| 0 <= j < |paths| && paths[j] == JoinPath(quakeDir, Lower(entries[i].name));
        UninstallPathMisses(quakeDir, Lower(entries[i].name), EntryRecords(entries)[j].name);
      }
    }
  }

  /** With the intended paths, uninstalling after a complete unpacking removes every file the
      unpacking wrote. */
  lemma IntendedUninstallRemovesUnpacked(fs: FileSystem, quakeDir: string, entries: seq<ZipEntry>)
    requires Unpack(fs, quakeDir, entries).0
    ensures var after := RemoveAll(Unpack(fs, quakeDir, entries).1, IntendedUninstallPaths(quakeDir, EntryRecords(entries)));
            forall i :: 0 <= i < |entries| ==> JoinPath(quakeDir, Lower(entries[i].name)) !in after.files
  {
    var paths := IntendedUninstallPaths(quakeDir, EntryRecords(entries));
    forall i | 0 <= i < |entries|
      ensures JoinPath(quakeDir, Lower(entries[i].name)) in paths
    {
      assert paths[i] == JoinPath(quakeDir, Lower(entries[i].name));
    }
  }

  /** The default installer puts `e1m1.bsp` at `.../Quake/id1/maps/e1m1.bsp`, and its
      uninstall then looks for `.../Quake/id1/maps/id1/maps/e1m1.bsp`. */
  lemma DefaultInstallerMissesItsFile()
    ensures var written := JoinPath(DefaultQuakeDir, "e1m1.bsp");
            var removed := UninstallPaths(DefaultQuakeDir, [FileInfo(0, "e1m1.bsp")]);
            removed == [DefaultQuakeDir + "/id1/maps/e1m1.bsp"] && written !in removed
  {
    var written := JoinPath(DefaultQuakeDir, "e1m1.bsp");
    var removed := UninstallPaths(DefaultQuakeDir, [FileInfo(0, "e1m1.bsp")]);
    assert removed[0] == DefaultQuakeDir + "/id1/maps/e1m1.bsp";
    assert |written| != |removed[0]|;
  }

  class Installer {
    var downloadDir: string
    var quakeDir: string
    var pathString: string
    var mapId: string
    var installedMapPack: Option<MapPack>

    /** The hard-coded defaults; `firstInit` is ignored. */
    constructor (firstInit: bool)
      ensures downloadDir == DefaultDownloadDir && quakeDir == DefaultQuakeDir
      ensures pathString == "" && mapId == "" && installedMapPack == None
    {
      downloadDir := DefaultDownloadDir;
      pathString := "";
      quakeDir := DefaultQuakeDir;
      installedMapPack := None;
      mapId := "";
    }

    /** The struct literal the builder-style replacers rebuild. */
    constructor Rebuild(downloadDir: string, quakeDir: string, pathString: string, mapId: string,
                        installedMapPack: Option<MapPack>)
      ensures this.downloadDir == downloadDir && this.quakeDir == quakeDir && this.pathString == pathString
      ensures this.mapId == mapId && this.installedMapPack == installedMapPack
    {
      this.downloadDir := downloadDir;
      this.quakeDir := quakeDir;
      this.pathString := pathString;
      this.mapId := mapId;
      this.installedMapPack := installedMapPack;
    }

    /** Consumes the installer and returns one that differs only in `path_string`. */
    method WithPathString(s: string) returns (r: Installer)
      ensures fresh(r)
      ensures r.pathString == s
      ensures r.downloadDir == downloadDir && r.quakeDir == quakeDir && r.mapId == mapId
      ensures r.installedMapPack == installedMapPack
    {
      r := new Installer.Rebuild(downloadDir, quakeDir, s, mapId, installedMapPack);
    }

    /** Consumes the installer and returns one that differs only in `map_id`. */
    method WithMapId(id: string) returns (r: Installer)
      ensures fresh(r)
      ensures r.mapId == id
      ensures r.downloadDir == downloadDir && r.quakeDir == quakeDir && r.pathString == pathString
      ensures r.installedMapPack == installedMapPack
    {
      r := new Installer.Rebuild(downloadDir, quakeDir, pathString, id, installedMapPack);
    }

    /** Stores the downloaded bytes (`fetched`: their CRC-32, `None` when the request or the
        body failed) at `{download_dir}/{map_id}.zip`; a failed write is only logged. */
    method GetFileFromRemote(mapId: string, fetched: Option<u32>, fs: FileSystem) returns (fs': FileSystem)
      ensures fetched.None? ==> fs' == fs
      ensures fetched.Some? && ZipPath(downloadDir, mapId) !in fs.locked ==>
        fs'.files == fs.files[ZipPath(downloadDir, mapId) := fetched.value]
      ensures fetched.Some? && ZipPath(downloadDir, mapId) in fs.locked ==> fs' == fs
      ensures fs'.locked == fs.locked
    {
      if fetched.None? {
        return fs;
      }
      var path := ZipPath(downloadDir, mapId);
      fs' := Create(fs, path, fetched.value).1;
    }

    /** Opens the cached archive (`archive`, `None` when it is missing or not a zip) and writes
        every entry to `{quake_dir}/{lowercased name}`, recording each; then sets the installed
        pack. Any failure panics: `completed` is false, the files written so far stay and the
        installed pack is left as it was. */
    method UnpackZipToDir(mapId: string, archive: Option<seq<ZipEntry>>, fs: FileSystem)
      returns (completed: bool, fs': FileSystem)
      modifies this
      ensures downloadDir == old(downloadDir) && quakeDir == old(quakeDir)
      ensures pathString == old(pathString) && this.mapId == old(this.mapId)
      ensures archive.None? ==> !completed && fs' == fs
      ensures archive.Some? ==> (completed, fs') == Unpack(fs, quakeDir, archive.value)
      ensures completed ==> installedMapPack == Some(MapPack(mapId, EntryRecords(archive.value)))
      ensures !completed ==> installedMapPack == old(installedMapPack)
    {
      if archive.None? {
        return false, fs;
      }
      var entries := archive.value;
      var files: seq<FileInfo> := [];
      fs' := fs;
      for i := 0 to |entries|
        invariant files == EntryRecords(entries[..i])
        invariant Unpack(fs', quakeDir, entries[i..]) == Unpack(fs, quakeDir, entries)
      {
        var file := entries[i];
        if !file.readable {
          return false, fs';
        }
        var name := Lower(file.name);
        files := files + [FileInfo(file.crc, name)];
        var created := Create(fs', JoinPath(quakeDir, name), file.crc);
        if !created.0 {
          return false, fs';
        }
        fs' := created.1;
        assert entries[i..][1..] == entries[i + 1..];
        assert entries[..i + 1] == entries[..i] + [entries[i]];
      }
      assert entries[..|entries|] == entries;
      installedMapPack := Some(MapPack(mapId, files));
      completed := true;
    }

    /** Downloads the pack, then unpacks the archive found at its cache path. The archive is a
        parameter, not read back from the bytes the download cached. */
    method InstallMap(mapId: string, fetched: Option<u32>, archive: Option<seq<ZipEntry>>, fs: FileSystem)
      returns (completed: bool, fs': FileSystem)
      modifies this
      ensures downloadDir == old(downloadDir) && quakeDir == old(quakeDir)
      ensures pathString == old(pathString) && this.mapId == old(this.mapId)
      ensures var cached := if fetched.Some? then Create(fs, ZipPath(downloadDir, mapId), fetched.value).1 else fs;
              archive.None? ==> !completed && fs' == cached
      ensures var cached := if fetched.Some? then Create(fs, ZipPath(downloadDir, mapId), fetched.value).1 else fs;
              archive.Some? ==> (completed, fs') == Unpack(cached, quakeDir, archive.value)
      ensures completed ==> installedMapPack == Some(MapPack(mapId, EntryRecords(archive.value)))
      ensures !completed ==> installedMapPack == old(installedMapPack)
    {
      var cached := GetFileFromRemote(mapId, fetched, fs);
      completed, fs' := UnpackZipToDir(mapId, archive, cached);
    }

    /** Tries to remove every listed file at `{quake_dir}/id1/maps/{name}`, going on after a
        failed removal. */
    method UninstallMap(files: seq<FileInfo>, fs: FileSystem) returns (fs': FileSystem)
      ensures fs' == RemoveAll(fs, UninstallPaths(quakeDir, files))
    {
      var paths := UninstallPaths(quakeDir, files);
      fs' := fs;
      for i := 0 to |files|
        invariant RemoveAll(fs', paths[i..]) == RemoveAll(fs, paths)
      {
        var filePath := quakeDir + "/id1/maps/" + files[i].name;
        // a failed removal is only logged
        fs' := Remove(fs', filePath).1;
        assert paths[i..][1..] == paths[i + 1..];
      }
    }
  }
}
