/** `QInjector`: the application state (catalogue, configuration, registry) and the
    install pipeline that classifies, extracts and uninstalls a map pack's files under
    `{quake_dir}/id1/maps`. */
module App {
  import opened Wrappers
  import opened Text
  import opened Disk
  import opened Configuration
  import opened QuakeFiles
  import opened Seqs

  /** `format!("{}/id1/maps", quake_dir)`: the directory this path of the program installs into. */
  function MapsDir(quakeDir: string): (r: string)
    ensures r == JoinPath(JoinPath(quakeDir, "id1"), "maps")
  {
    quakeDir + "/id1/maps"
  }

  /** A process to spawn: the executable and its argument vector. */
  datatype Command = Command(program: string, args: seq<string>)

  // ---------------------------------------------------------------------------
  // Duplicate classification (`process_zip_files`)
  // ---------------------------------------------------------------------------

  /** The directory already holds exactly this entry: same name, same checksum. */
  predicate IsIdentical(listing: map<string, u32>, e: ZipEntry) {
    var n := Lower(e.name);
    n in listing && listing[n] == e.crc
  }

  /** The directory holds a file named exactly like the entry's lowercased name (the on-disk
      name is not lowercased) whose CRC-32 differs from the one the archive stores: a file of
      that name that is not this entry. */
  function IsDupe(listing: map<string, u32>, e: ZipEntry): (b: bool)
    ensures b <==> Lower(e.name) in listing && !IsIdentical(listing, e)
  {
    var n := Lower(e.name);
    n in listing && listing[n] != e.crc
  }

  predicate AllReadable(entries: seq<ZipEntry>) {
    forall i :: 0 <= i < |entries| ==> entries[i].readable
  }

  /** The two lists the scan builds, entry after entry in archive order:
      names to extract, and names that clash with a different file on disk. */
  function Classify(listing: map<string, u32>, entries: seq<ZipEntry>): (r: (seq<string>, seq<string>))
    ensures |r.0| + |r.1| == |entries|
  {
    if entries == [] then ([], [])
    else
      var (extract, dupes) := Classify(listing, entries[..|entries| - 1]);
      var e := entries[|entries| - 1];
      if IsDupe(listing, e) then (extract, dupes + [Lower(e.name)]) else (extract + [Lower(e.name)], dupes)
  }

  /** The lowercased entry names, in archive order. */
  function LowerNames(entries: seq<ZipEntry>): (r: seq<string>)
    ensures |r| == |entries| && forall i :: 0 <= i < |entries| ==> r[i] == Lower(entries[i].name)
  {
    seq(|entries|, i requires 0 <= i < |entries| => Lower(entries[i].name))
  }

  function DupeFlags(listing: map<string, u32>, entries: seq<ZipEntry>): (r: seq<bool>)
    ensures |r| == |entries| && forall i :: 0 <= i < |entries| ==> r[i] == IsDupe(listing, entries[i])
  {
    seq(|entries|, i requires 0 <= i < |entries| => IsDupe(listing, entries[i]))
  }

  /** The names whose flag equals `want`, in their original order. */
  function Select(names: seq<string>, flags: seq<bool>, want: bool): seq<string>
    requires |names| == |flags|
  {
    if names == [] then [] else (if flags[0] == want then [names[0]] else []) + Select(names[1..], flags[1..], want)
  }

  lemma {:induction false} SelectSnoc(names: seq<string>, flags: seq<bool>, n: string, f: bool, want: bool)
    requires |names| == |flags|
    ensures Select(names + [n], flags + [f], want) == Select(names, flags, want) + (if f == want then [n] else [])
  {
    if names == [] {
      assert names + [n] == [n] && flags + [f] == [f];
    } else {
      SelectSnoc(names[1..], flags[1..], n, f, want);
      assert (names + [n])[1..] == names[1..] + [n];
      assert (flags + [f])[1..] == flags[1..] + [f];
    }
  }

  lemma {:induction false} SelectMembers(names: seq<string>, flags: seq<bool>, want: bool, x: string)
    requires |names| == |flags|
    ensures x in Select(names, flags, want) <==> exists i :: 0 <= i < |names| && names[i] == x && flags[i] == want
  {
    if names != [] {
      SelectMembers(names[1..], flags[1..], want, x);
      if x in Select(names[1..], flags[1..], want) {
        var i :| 0 <= i < |names| - 1 && names[1..][i] == x && flags[1..][i] == want;
        assert names[i + 1] == x && flags[i + 1] == want;
      }
      if exists i :: 0 <= i < |names| && names[i] == x && flags[i] == want {
        var i :| 0 <= i < |names| && names[i] == x && flags[i] == want;
        if i > 0 {
          assert names[1..][i - 1] == x && flags[1..][i - 1] == want;
        }
      }
    }
  }

  lemma {:induction false} SelectPartition(names: seq<string>, flags: seq<bool>)
    requires |names| == |flags|
    ensures multiset(Select(names, flags, false)) + multiset(Select(names, flags, true)) == multiset(names)
  {
    if names != [] {
      SelectPartition(names[1..], flags[1..]);
      assert names == [names[0]] + names[1..];
    }
  }

  /** The scan's lists are the order-preserving selections of the lowercased names whose
      entry is not, respectively is, a conflicting duplicate. */
  lemma {:induction false} ClassifyIsSelect(listing: map<string, u32>, entries: seq<ZipEntry>)
    ensures Classify(listing, entries).0 == Select(LowerNames(entries), DupeFlags(listing, entries), false)
    ensures Classify(listing, entries).1 == Select(LowerNames(entries), DupeFlags(listing, entries), true)
  {
    if entries != [] {
      var init := entries[..|entries| - 1];
      var e := entries[|entries| - 1];
      ClassifyIsSelect(listing, init);
      assert LowerNames(entries) == LowerNames(init) + [Lower(e.name)];
      assert DupeFlags(listing, entries) == DupeFlags(listing, init) + [IsDupe(listing, e)];
      SelectSnoc(LowerNames(init), DupeFlags(listing, init), Lower(e.name), IsDupe(listing, e), false);
      SelectSnoc(LowerNames(init), DupeFlags(listing, init), Lower(e.name), IsDupe(listing, e), true);
    }
  }

  /** Every lowercased entry name lands in exactly one of the two lists: together they are
      the archive's names (with repetitions), and a name is a duplicate iff some entry with
      that name clashes with a different file on disk. */
  lemma ClassifyPartitions(listing: map<string, u32>, entries: seq<ZipEntry>, x: string)
    ensures multiset(Classify(listing, entries).0) + multiset(Classify(listing, entries).1) == multiset(LowerNames(entries))
    ensures x in Classify(listing, entries).1 <==>
            exists i :: 0 <= i < |entries| && Lower(entries[i].name) == x && IsDupe(listing, entries[i])
    ensures x in Classify(listing, entries).0 <==>
            exists i :: 0 <= i < |entries| && Lower(entries[i].name) == x && !IsDupe(listing, entries[i])
  {
    ClassifyIsSelect(listing, entries);
    SelectPartition(LowerNames(entries), DupeFlags(listing, entries));
    SelectMembers(LowerNames(entries), DupeFlags(listing, entries), true, x);
    SelectMembers(LowerNames(entries), DupeFlags(listing, entries), false, x);
  }

  /** When the scan succeeds (every entry can be opened), every name it lists for extraction
      can be located in the archive and its entry opened: the precondition of
      `ExtractDataFromZip` holds for the list the install dialog hands on. */
  lemma ClassifyExtractIsLocatable(listing: map<string, u32>, entries: seq<ZipEntry>)
    requires AllReadable(entries)
    ensures Locatable(entries, Classify(listing, entries).0)
  {
    var names := Classify(listing, entries).0;
    forall i | 0 <= i < |names|
      ensures EntryPosition(entries, names[i]) < |entries| && entries[EntryPosition(entries, names[i])].readable
    {
      ClassifyPartitions(listing, entries, names[i]);
      var j :| 0 <= j < |entries| && Lower(entries[j].name) == names[i] && !IsDupe(listing, entries[j]);
      assert EntryPosition(entries, names[i]) <= j;
    }
  }

  /** With nothing in the maps directory, every name is to be extracted and none clashes. */
  lemma {:induction false} ClassifyEmptyDirectory(entries: seq<ZipEntry>)
    ensures Classify(map[], entries) == (LowerNames(entries), [])
  {
    if entries != [] {
      ClassifyEmptyDirectory(entries[..|entries| - 1]);
      assert LowerNames(entries) == LowerNames(entries[..|entries| - 1]) + [Lower(entries[|entries| - 1].name)];
    }
  }

  /** An entry identical to the file already on disk is kept in the extract list, not dropped. */
  lemma IdenticalFileIsExtracted(listing: map<string, u32>, entries: seq<ZipEntry>, i: nat)
    requires i < |entries|
    requires Lower(entries[i].name) in listing && listing[Lower(entries[i].name)] == entries[i].crc
    ensures Lower(entries[i].name) in Classify(listing, entries).0
  {
    ClassifyPartitions(listing, entries, Lower(entries[i].name));
  }

  /** The scan as its documentation describes it: an entry identical to the file on disk is
      in neither list, since there is nothing to do for it. */
  function ClassifyIntended(listing: map<string, u32>, entries: seq<ZipEntry>): (r: (seq<string>, seq<string>))
    ensures |r.0| + |r.1| <= |entries|
  {
    if entries == [] then ([], [])
    else
      var (extract, dupes) := ClassifyIntended(listing, entries[..|entries| - 1]);
      var e := entries[|entries| - 1];
      if IsDupe(listing, e) then (extract, dupes + [Lower(e.name)])
      else if IsIdentical(listing, e) then (extract, dupes)
      else (extract + [Lower(e.name)], dupes)
  }

  /** With identical files dropped, a name is to be extracted iff some entry has it and no file
      of that name is on disk, and a duplicate iff some entry with it differs from the file on
      disk; an identical file alone puts its name in neither list. */
  lemma {:induction false} ClassifyIntendedDropsIdentical(listing: map<string, u32>, entries: seq<ZipEntry>, x: string)
    ensures x in ClassifyIntended(listing, entries).0 <==>
            x !in listing && exists i :: 0 <= i < |entries| && Lower(entries[i].name) == x
    ensures x in ClassifyIntended(listing, entries).1 <==>
            exists i :: 0 <= i < |entries| && Lower(entries[i].name) == x && IsDupe(listing, entries[i])
  {
    if entries != [] {
      var init := entries[..|entries| - 1];
      ClassifyIntendedDropsIdentical(listing, init, x);
      assert forall i :: 0 <= i < |init| ==> init[i] == entries[i];
      if exists i :: 0 <= i < |entries| && Lower(entries[i].name) == x {
        var i :| 0 <= i < |entries| && Lower(entries[i].name) == x;
        if i < |init| {
          assert Lower(init[i].name) == x;
        }
      }
      if exists i :: 0 <= i < |entries| && Lower(entries[i].name) == x && IsDupe(listing, entries[i]) {
        var i :| 0 <= i < |entries| && Lower(entries[i].name) == x && IsDupe(listing, entries[i]);
        if i < |init| {
          assert Lower(init[i].name) == x && IsDupe(listing, init[i]);
        }
      }
    }
  }

  /** As written, an archive entry identical to a file already on disk is extracted again,
      although the documentation says it is removed from both lists. */
  lemma IdenticalFileIsReextracted()
    ensures var listing := map["e1m1.bsp" := 7 as u32];
            var entries := [ZipEntry("E1M1.BSP", 7, true)];
            Classify(listing, entries) == (["e1m1.bsp"], [])
            && ClassifyIntended(listing, entries) == ([], [])
  {
    var listing := map["e1m1.bsp" := 7 as u32];
    var entries := [ZipEntry("E1M1.BSP", 7, true)];
    assert Lower("E1M1.BSP") == "e1m1.bsp";
    assert entries[..0] == [];
    assert IsIdentical(listing, entries[0]) && !IsDupe(listing, entries[0]);
    assert Classify(listing, entries[..0]) == ([], []);
    assert Classify(listing, entries) == ([] + [Lower(entries[0].name)], []);
    assert Classify(listing, entries).0 == ["e1m1.bsp"];
    assert ClassifyIntended(listing, entries[..0]) == ([], []);
    assert ClassifyIntended(listing, entries) == ([], []);
  }

  // ---------------------------------------------------------------------------
  // Extraction (`extract_data_from_zip`, `extract_file_to_directory`)
  // ---------------------------------------------------------------------------

  /** `file_names().position(|n| n.to_ascii_lowercase() == name)`, "none" written as
      `|archive|`, with the names enumerated in archive order (see `OpenedEntry` below). */
  function EntryPosition(archive: seq<ZipEntry>, name: string): (k: nat)
    ensures k <= |archive|
    ensures k < |archive| ==> Lower(archive[k].name) == name
    ensures forall j :: 0 <= j < k ==> Lower(archive[j].name) != name
  {
    FirstIndex(archive, (e: ZipEntry) => Lower(e.name) == name)
  }

  /** The stored entry names, in archive order. */
  function EntryNames(archive: seq<ZipEntry>): (r: seq<string>)
    ensures |r| == |archive| && forall i :: 0 <= i < |archive| ==> r[i] == archive[i].name
  {
    seq(|archive|, i requires 0 <= i < |archive| => archive[i].name)
  }

  /** `by_index(file_names().position(|n| n.to_ascii_lowercase() == name).unwrap())` when
      `file_names()` yields the names in the order `listed`: the index is a position in
      `listed`, while `by_index` reads the archive's own entry list at that index. `None` is
      the panic of `unwrap` or `expect`. */
  function OpenedEntry(archive: seq<ZipEntry>, listed: seq<string>, name: string): (r: Option<ZipEntry>)
    ensures r.Some? <==> exists k :: 0 <= k < |listed| && k < |archive| && Lower(listed[k]) == name
    ensures r.Some? ==> exists k :: 0 <= k < |listed| && k < |archive| && Lower(listed[k]) == name
                                    && r.value == archive[k] && forall j :: 0 <= j < k ==> Lower(listed[j]) != name
  {
    var k := FirstIndex(listed, (n: string) => Lower(n) == name);
    if k < |listed| && k < |archive| then Some(archive[k]) else None
  }

  /** With the names enumerated in another order than the archive's, the entry opened for a
      requested name can be a different file: for an archive holding `a` then `b` whose names
      are listed as `b, a`, asking for `a` opens `b`. */
  lemma EnumerationOrderOpensOtherEntry(a: ZipEntry, b: ZipEntry)
    requires Lower(a.name) != Lower(b.name)
    ensures multiset([b.name, a.name]) == multiset(EntryNames([a, b]))
    ensures OpenedEntry([a, b], [b.name, a.name], Lower(a.name)) == Some(b)
  {
    var listed := [b.name, a.name];
    assert EntryNames([a, b]) == [a.name, b.name];
    assert listed[1..] == [a.name];
    assert FirstIndex(listed, (n: string) => Lower(n) == Lower(a.name)) == 1;
  }

  /** With the names enumerated in archive order, the entry opened is the first one whose
      lowercased name is the requested one, the entry `EntryPosition` finds. */
  lemma ArchiveOrderOpensNamedEntry(archive: seq<ZipEntry>, name: string)
    ensures OpenedEntry(archive, EntryNames(archive), name).Some? <==> EntryPosition(archive, name) < |archive|
    ensures OpenedEntry(archive, EntryNames(archive), name).Some? ==>
      OpenedEntry(archive, EntryNames(archive), name).value == archive[EntryPosition(archive, name)]
      && Lower(archive[EntryPosition(archive, name)].name) == name
  {
  }

  /** Every requested name is the lowercased name of an archive entry, and the first such
      entry can be opened (otherwise `unwrap`/`expect` panics). */
  predicate Locatable(archive: seq<ZipEntry>, names: seq<string>) {
    forall i :: 0 <= i < |names| ==>
      EntryPosition(archive, names[i]) < |archive| && archive[EntryPosition(archive, names[i])].readable
  }

  lemma LocatableSuffix(archive: seq<ZipEntry>, names: seq<string>, k: nat)
    requires Locatable(archive, names) && k <= |names|
    ensures Locatable(archive, names[k..]) && Locatable(archive, names[..k])
  {
    forall i | 0 <= i < |names| - k ensures names[k..][i] == names[k + i] { }
    forall i | 0 <= i < k ensures names[..k][i] == names[i] { }
  }

  /** The manifest recorded for the requested names: CRC-32 and lowercased name of the
      first archive entry matching each, in request order. */
  function Manifest(archive: seq<ZipEntry>, names: seq<string>): (r: seq<FileInfo>)
    requires Locatable(archive, names)
    ensures |r| == |names|
    ensures forall i :: 0 <= i < |names| ==> r[i].name == names[i]
  {
    seq(|names|, i requires 0 <= i < |names| =>
      var e := archive[EntryPosition(archive, names[i])];
      FileInfo(e.crc, Lower(e.name)))
  }

  /** Each manifest record is the checksum and name of the first archive entry whose
      lowercased name is the requested one. */
  lemma ManifestRecordsFirstEntry(archive: seq<ZipEntry>, names: seq<string>, i: nat)
    requires Locatable(archive, names) && i < |names|
    ensures exists k :: 0 <= k < |archive| && archive[k].readable && Lower(archive[k].name) == names[i]
                        && Manifest(archive, names)[i] == FileInfo(archive[k].crc, names[i])
                        && (forall j :: 0 <= j < k ==> Lower(archive[j].name) != names[i])
  {
    var k := EntryPosition(archive, names[i]);
    assert Manifest(archive, names)[i] == FileInfo(archive[k].crc, names[i]);
  }

  /** `extract_file_to_directory`: create `{dir}/{lowercased name}` and copy the entry into it. */
  function ExtractFile(fs: FileSystem, dir: string, e: ZipEntry): (r: (bool, FileSystem))
    ensures r.0 <==> JoinPath(dir, Lower(e.name)) !in fs.locked
    ensures r.0 ==> r.1.files == fs.files[JoinPath(dir, Lower(e.name)) := e.crc]
    ensures !r.0 ==> r.1 == fs
    ensures r.1.locked == fs.locked
  {
    Create(fs, JoinPath(dir, Lower(e.name)), e.crc)
  }

  /** `to_install.iter().all(...)`: extract each requested name in order, stopping at the first
      file that cannot be created. */
  function ExtractAll(fs: FileSystem, dir: string, archive: seq<ZipEntry>, names: seq<string>): (r: (bool, FileSystem))
    requires Locatable(archive, names)
    ensures r.1.locked == fs.locked
    ensures r.0 <==> forall i :: 0 <= i < |names| ==> JoinPath(dir, names[i]) !in fs.locked
    decreases |names|
  {
    if names == [] then (true, fs)
    else
      var e := archive[EntryPosition(archive, names[0])];
      var (written, fs1) := ExtractFile(fs, dir, e);
      if !written then (false, fs1)
      else
        LocatableSuffix(archive, names, 1);
        ExtractAll(fs1, dir, archive, names[1..])
  }

  /** A path that is not the target of any requested name keeps its content, whether or not
      the extraction completes. */
  lemma {:induction false} ExtractAllKeeps(fs: FileSystem, dir: string, archive: seq<ZipEntry>, names: seq<string>, p: string)
    requires Locatable(archive, names)
    requires forall i :: 0 <= i < |names| ==> p != JoinPath(dir, names[i])
    ensures p in ExtractAll(fs, dir, archive, names).1.files <==> p in fs.files
    ensures p in fs.files ==> ExtractAll(fs, dir, archive, names).1.files[p] == fs.files[p]
    decreases |names|
  {
    if names != [] {
      var fs1 := ExtractFile(fs, dir, archive[EntryPosition(archive, names[0])]).1;
      LocatableSuffix(archive, names, 1);
      assert forall i :: 0 <= i < |names| - 1 ==> names[1..][i] == names[i + 1];
      ExtractAllKeeps(fs1, dir, archive, names[1..], p);
    }
  }

  /** After a complete extraction the target of a requested name holds the content of the
      first archive entry with that name, even when the name is requested more than once. */
  lemma {:induction false} ExtractAllWritesName(fs: FileSystem, dir: string, archive: seq<ZipEntry>, names: seq<string>, i: nat)
    requires Locatable(archive, names)
    requires ExtractAll(fs, dir, archive, names).0
    requires i < |names|
    ensures JoinPath(dir, names[i]) in ExtractAll(fs, dir, archive, names).1.files
    ensures ExtractAll(fs, dir, archive, names).1.files[JoinPath(dir, names[i])] == archive[EntryPosition(archive, names[i])].crc
    decreases |names|
  {
    var fs1 := ExtractFile(fs, dir, archive[EntryPosition(archive, names[0])]).1;
    LocatableSuffix(archive, names, 1);
    if i > 0 {
      ExtractAllWritesName(fs1, dir, archive, names[1..], i - 1);
    } else if j :| 0 <= j < |names| - 1 && names[1..][j] == names[0] {
      ExtractAllWritesName(fs1, dir, archive, names[1..], j);
    } else {
      assert forall k :: 0 <= k < |names| - 1 ==> JoinPath(dir, names[0]) != JoinPath(dir, names[1..][k]);
      ExtractAllKeeps(fs1, dir, archive, names[1..], JoinPath(dir, names[0]));
    }
  }

  /** After a complete extraction each requested name's file holds the content its manifest
      entry records, and every other path is as before. */
  lemma ExtractAllWrites(fs: FileSystem, dir: string, archive: seq<ZipEntry>, names: seq<string>)
    requires Locatable(archive, names)
    requires ExtractAll(fs, dir, archive, names).0
    ensures forall i :: 0 <= i < |names| ==>
      JoinPath(dir, names[i]) in ExtractAll(fs, dir, archive, names).1.files
      && ExtractAll(fs, dir, archive, names).1.files[JoinPath(dir, names[i])] == Manifest(archive, names)[i].crc
    ensures forall p :: (forall i :: 0 <= i < |names| ==> p != JoinPath(dir, names[i])) ==>
      (p in ExtractAll(fs, dir, archive, names).1.files <==> p in fs.files)
      && (p in fs.files ==> ExtractAll(fs, dir, archive, names).1.files[p] == fs.files[p])
  {
    forall i | 0 <= i < |names|
      ensures JoinPath(dir, names[i]) in ExtractAll(fs, dir, archive, names).1.files
      ensures ExtractAll(fs, dir, archive, names).1.files[JoinPath(dir, names[i])] == Manifest(archive, names)[i].crc
    {
      ExtractAllWritesName(fs, dir, archive, names, i);
    }
    forall p | forall i :: 0 <= i < |names| ==> p != JoinPath(dir, names[i])
      ensures p in ExtractAll(fs, dir, archive, names).1.files <==> p in fs.files
      ensures p in fs.files ==> ExtractAll(fs, dir, archive, names).1.files[p] == fs.files[p]
    {
      ExtractAllKeeps(fs, dir, archive, names, p);
    }
  }

  /** Index of the first requested name whose target cannot be created, `|names|` when none. */
  function FirstLocked(locked: set<string>, dir: string, names: seq<string>): (k: nat)
    ensures k <= |names|
    ensures k < |names| ==> JoinPath(dir, names[k]) in locked
    ensures forall j :: 0 <= j < k ==> JoinPath(dir, names[j]) !in locked
  {
    if names == [] then 0
    else if JoinPath(dir, names[0]) in locked then 0
    else 1 + FirstLocked(locked, dir, names[1..])
  }

  /** The extraction stops at the first name whose file cannot be created: it completes iff
      there is none, and leaves the disk exactly as extracting only the names before it. */
  lemma {:induction false} ExtractAllStops(fs: FileSystem, dir: string, archive: seq<ZipEntry>, names: seq<string>)
    requires Locatable(archive, names)
    ensures Locatable(archive, names[..FirstLocked(fs.locked, dir, names)])
    ensures ExtractAll(fs, dir, archive, names).0 <==> FirstLocked(fs.locked, dir, names) == |names|
    ensures ExtractAll(fs, dir, archive, names).1 == ExtractAll(fs, dir, archive, names[..FirstLocked(fs.locked, dir, names)]).1
    decreases |names|
  {
    var k := FirstLocked(fs.locked, dir, names);
    LocatableSuffix(archive, names, k);
    if names != [] && JoinPath(dir, names[0]) !in fs.locked {
      var fs1 := ExtractFile(fs, dir, archive[EntryPosition(archive, names[0])]).1;
      LocatableSuffix(archive, names, 1);
      ExtractAllStops(fs1, dir, archive, names[1..]);
      assert names[..k][1..] == names[1..][..k - 1];
    }
  }

  /** The paths `uninstall_map` removes for a manifest: `{quake_dir}/id1/maps/{name}`. */
  function InstalledPaths(quakeDir: string, files: seq<FileInfo>): (r: seq<string>)
    ensures |r| == |files|
    ensures forall i :: 0 <= i < |files| ==> r[i] == quakeDir + "/id1/maps/" + files[i].name
  {
    seq(|files|, i requires 0 <= i < |files| => JoinPath(MapsDir(quakeDir), files[i].name))
  }

  /** Uninstalling right after a complete extraction removes every file the extraction wrote.
      This rests on one `locked` set deciding both creation and removal: a path that could be
      created is also one that can be removed. */
  lemma ExtractThenUninstall(fs: FileSystem, quakeDir: string, archive: seq<ZipEntry>, names: seq<string>)
    requires Locatable(archive, names)
    requires ExtractAll(fs, MapsDir(quakeDir), archive, names).0
    ensures var paths := InstalledPaths(quakeDir, Manifest(archive, names));
            var after := RemoveAll(ExtractAll(fs, MapsDir(quakeDir), archive, names).1, paths);
            forall i :: 0 <= i < |names| ==> JoinPath(MapsDir(quakeDir), names[i]) !in after.files
  {
    var paths := InstalledPaths(quakeDir, Manifest(archive, names));
    forall i | 0 <= i < |names| ensures paths[i] == JoinPath(MapsDir(quakeDir), names[i]) { }
  }

  // ---------------------------------------------------------------------------
  // Catalogue lookups
  // ---------------------------------------------------------------------------

  /** `iter().position(|file| file.id == id)` over the catalogue, "none" written as `|files|`. */
  function FilePosition(files: seq<QuakeFile>, id: string): nat {
    FirstIndex(files, (f: QuakeFile) => f.id == id)
  }

  /** The extra engine arguments a catalogue entry asks for: its command line split on single
      spaces (empty pieces kept), or nothing. */
  function CommandLinePieces(file: QuakeFile): (r: seq<string>)
    ensures file.techInfo.commandLine.None? ==> r == []
    ensures file.techInfo.commandLine.Some? ==>
      |r| == Count(file.techInfo.commandLine.value, ' ') + 1 && Join(r, ' ') == file.techInfo.commandLine.value
  {
    match file.techInfo.commandLine
    case Some(line) => SplitPieces(line, ' '); JoinSplit(line, ' '); Split(line, ' ')
    case None => []
  }

  // ---------------------------------------------------------------------------
  // The application object
  // ---------------------------------------------------------------------------

  class QInjector {
    var files: seq<QuakeFile>
    var config: Config
    /** One shared registry object; the source keeps `LocalMaps` by value in a cloneable
        struct, so each clone would hold its own copy. */
    const localMaps: LocalMaps

    constructor (files: seq<QuakeFile>, config: Config, localMaps: LocalMaps)
      ensures this.files == files && this.config == config && this.localMaps == localMaps
    {
      this.files := files;
      this.config := config;
      this.localMaps := localMaps;
    }

    /** The first catalogue entry with this id, `None` iff there is none. */
    function GetFileById(id: string): (r: Option<QuakeFile>)
      reads this
      ensures r.None? <==> forall i :: 0 <= i < |files| ==> files[i].id != id
      ensures r.Some? ==> exists k :: 0 <= k < |files| && r.value == files[k] && r.value.id == id
                                      && forall j :: 0 <= j < k ==> files[j].id != id
    {
      var k := FilePosition(files, id);
      if k < |files| then Some(files[k]) else None
    }

    /** The mutable reference `iter_mut().find(...)` hands out, as the index of the entry. */
    function GetMutFileById(id: string): (r: Option<nat>)
      reads this
      ensures r.None? <==> GetFileById(id).None?
      ensures r.Some? ==> r.value < |files| && Some(files[r.value]) == GetFileById(id)
    {
      var k := FilePosition(files, id);
      if k < |files| then Some(k) else None
    }

    /** Sets the "installed locally" flag of the first entry with this id; an unknown id is only logged. */
    method UpdateCurrentFileDownloadStatus(status: bool, id: string)
      modifies this
      ensures config == old(config)
      ensures old(GetMutFileById(id)).None? ==> files == old(files)
      ensures old(GetMutFileById(id)).Some? ==>
        var k := old(GetMutFileById(id)).value;
        files == old(files)[k := old(files)[k].(installedLocally := status)]
    {
      var found := GetMutFileById(id);
      if found.Some? {
        var k := found.value;
        files := files[k := files[k].(installedLocally := status)];
      }
    }

    /** Opens the cached archive (`zip`, `None` when it is not a valid zip), reads the maps
        directory (`listing`: each file's name with the CRC-32 of its bytes, `None` when it
        cannot be read) and sorts the archive's lowercased names into files to extract and
        conflicting duplicates. Any entry that cannot be opened aborts the scan. */
    method ProcessZipFiles(zip: Option<seq<ZipEntry>>, listing: Option<map<string, u32>>)
      returns (r: Option<(seq<string>, seq<string>)>)
      ensures r.None? <==> zip.None? || listing.None? || !AllReadable(zip.value)
      ensures r.Some? ==> r.value == Classify(listing.value, zip.value)
    {
      if zip.None? {
        return None;
      }
      if listing.None? {
        return None;
      }
      var entries, entriesInDir := zip.value, listing.value;
      var filesToExtract: seq<string> := [];
      var dupeNames: seq<string> := [];
      for i := 0 to |entries|
        invariant (filesToExtract, dupeNames) == Classify(entriesInDir, entries[..i])
        invariant AllReadable(entries[..i])
      {
        var f := entries[i];
        if !f.readable {
          return None;
        }
        var zipFileName := Lower(f.name);
        // `any` over the directory: a file with exactly this name and a different checksum
        var found := zipFileName in entriesInDir && entriesInDir[zipFileName] != f.crc;
        if found {
          dupeNames := dupeNames + [zipFileName];
        } else {
          filesToExtract := filesToExtract + [zipFileName];
        }
        assert entries[..i + 1][..i] == entries[..i];
      }
      assert entries[..|entries|] == entries;
      return Some((filesToExtract, dupeNames));
    }

    /** Downloads the pack (`fetched`: the CRC-32 of the bytes received, `None` when the request
        failed), caches it at `{download_dir}/{id}.zip`, and scans the cached archive. */
    method StartMapInstall(id: string, fetched: Option<u32>, fs: FileSystem,
                           zip: Option<seq<ZipEntry>>, listing: Option<map<string, u32>>)
      returns (r: Option<(seq<string>, seq<string>)>, fs': FileSystem)
      ensures fetched.None? ==> r.None? && fs' == fs
      ensures fetched.Some? ==> fs' == Create(fs, ZipPath(config.downloadDir, id), fetched.value).1
      ensures fetched.Some? && ZipPath(config.downloadDir, id) in fs.locked ==> r.None?
      ensures fetched.Some? && ZipPath(config.downloadDir, id) !in fs.locked ==>
        (r.None? <==> zip.None? || listing.None? || !AllReadable(zip.value))
        && (r.Some? ==> r.value == Classify(listing.value, zip.value))
    {
      if fetched.None? {
        return None, fs;
      }
      var created := Create(fs, ZipPath(config.downloadDir, id), fetched.value);
      var written := created.0;
      fs' := created.1;
      if !written {
        return None, fs';
      }
      r := ProcessZipFiles(zip, listing);
    }

    /** Extracts the requested names from the archive cached for `id` into the maps directory,
        stopping at the first file that cannot be created; registers `MapPack{id, files}` iff
        every file was written. */
    method ExtractDataFromZip(toInstall: seq<string>, id: string, archive: seq<ZipEntry>, fs: FileSystem)
      returns (ok: bool, fs': FileSystem)
      requires Locatable(archive, toInstall)
      modifies localMaps
      ensures (ok, fs') == ExtractAll(fs, MapsDir(config.quakeDir), archive, toInstall)
      ensures ok ==> localMaps.maps == old(localMaps.maps) + [MapPack(id, Manifest(archive, toInstall))]
      ensures !ok ==> localMaps.maps == old(localMaps.maps)
    {
      var extractPath := MapsDir(config.quakeDir);
      var files: seq<FileInfo> := [];
      fs' := fs;
      var i := 0;
      while i < |toInstall|
        invariant 0 <= i <= |toInstall|
        invariant Locatable(archive, toInstall[i..]) && Locatable(archive, toInstall[..i])
        invariant files == Manifest(archive, toInstall[..i])
        invariant localMaps.maps == old(localMaps.maps)
        invariant ExtractAll(fs', extractPath, archive, toInstall[i..]) == ExtractAll(fs, extractPath, archive, toInstall)
      {
        var position := EntryPosition(archive, toInstall[i]);
        var file := archive[position];
        files := files + [FileInfo(file.crc, Lower(file.name))];
        var extracted := ExtractFile(fs', extractPath, file);
        var written := extracted.0;
        fs' := extracted.1;
        if !written {
          return false, fs';
        }
        assert toInstall[i..][1..] == toInstall[i + 1..];
        LocatableSuffix(archive, toInstall, i + 1);
        assert toInstall[..i + 1] == toInstall[..i] + [toInstall[i]];
        i := i + 1;
      }
      assert toInstall[..i] == toInstall;
      localMaps.AddMap(MapPack(id, files));
      ok := true;
    }

    /** Removes every manifest file of the first pack with this id from the maps directory,
        ignoring removals that fail, then drops that pack from the registry; `false` and no
        change when the id is not registered. */
    method UninstallMap(id: string, fs: FileSystem) returns (ok: bool, fs': FileSystem)
      modifies localMaps
      ensures ok <==> IsInstalled(old(localMaps.maps), id)
      ensures !ok ==> fs' == fs && localMaps.maps == old(localMaps.maps)
      ensures ok ==> fs' == RemoveAll(fs, InstalledPaths(config.quakeDir, Find(old(localMaps.maps), id).value.files))
      ensures ok ==> localMaps.maps == RemoveFirst(old(localMaps.maps), id)
    {
      var found := localMaps.GetMapById(id);
      if found.None? {
        return false, fs;
      }
      var paths := InstalledPaths(config.quakeDir, found.value.files);
      fs' := fs;
      for i := 0 to |found.value.files|
        invariant RemoveAll(fs', paths[i..]) == RemoveAll(fs, paths)
      {
        var filePath := JoinPath(MapsDir(config.quakeDir), found.value.files[i].name);
        // a failed removal is only logged
        fs' := Remove(fs', filePath).1;
        assert paths[i..][1..] == paths[i + 1..];
      }
      localMaps.RemoveMap(id);
      ok := true;
    }

    /** The engine command for playing a catalogue entry: `-basedir`, the Quake directory, the
        entry's command line split on spaces, then `+map` and the chosen start map. `None`
        stands for the panic on an id missing from the catalogue. */
    method PlayQuakeMap(id: string, startMap: string) returns (r: Option<Command>)
      ensures r.None? <==> GetFileById(id).None?
      ensures r.Some? ==> r.value.program == config.quakeExe
      ensures r.Some? ==> r.value.args == ["-basedir", config.quakeDir] + CommandLinePieces(GetFileById(id).value) + ["+map", startMap]
    {
      var found := GetFileById(id);
      if found.None? {
        return None;
      }
      var args := ["-basedir", config.quakeDir];
      var pieces := CommandLinePieces(found.value);
      for i := 0 to |pieces|
        invariant args == ["-basedir", config.quakeDir] + pieces[..i]
      {
        args := args + [pieces[i]];
        assert pieces[..i + 1] == pieces[..i] + [pieces[i]];
      }
      assert pieces[..|pieces|] == pieces;
      args := args + ["+map", startMap];
      return Some(Command(config.quakeExe, args));
    }
  }

  /** The command keeps the catalogue's command line intact: the arguments between the Quake
      directory and `+map` join back, with single spaces, into exactly that line. */
  lemma PlayArgumentsKeepCommandLine(dir: string, file: QuakeFile, startMap: string)
    requires file.techInfo.commandLine.Some?
    ensures var args := ["-basedir", dir] + CommandLinePieces(file) + ["+map", startMap];
            |args| == 4 + Count(file.techInfo.commandLine.value, ' ') + 1
            && Join(args[2..|args| - 2], ' ') == file.techInfo.commandLine.value
  {
    var line := file.techInfo.commandLine.value;
    var args := ["-basedir", dir] + CommandLinePieces(file) + ["+map", startMap];
    SplitPieces(line, ' ');
    JoinSplit(line, ' ');
    assert args[2..|args| - 2] == Split(line, ' ');
  }
}
