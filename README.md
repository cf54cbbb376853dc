# rq_injector core, modelled in Dafny

rq_injector is a desktop installer for Quake single-player map packs from the Quaddicted
catalogue. This project models the part of it that decides what gets written to and removed from
the Quake directory, and how the program remembers what it installed:

- the **installed-maps registry** (`LocalMaps`, an ordered list of `MapPack { id, files }`, each
  file a `FileInfo { crc, name }`), with its append, remove-first and lookup operations;
- the **install pipeline** of `QInjector`: caching the downloaded archive at
  `{download_dir}/{id}.zip`, sorting the archive's lowercased entry names into "to extract" and
  "conflicting duplicate" against `{quake_dir}/id1/maps`, extracting the chosen names while
  recording a manifest, committing the pack to the registry only when every file was written,
  the best-effort uninstall, catalogue lookups and the engine command line;
- the older **`Installer`** path, which unpacks every entry into its own directory and whose
  uninstall looks somewhere else (see Findings);
- the **game launcher's** argument vector, the **search filter**, the **locale name**
  round trip, and the catalogue list's **column ids**, **rating parse** and **date formats**.

Modules: `Wrappers` (Option), `Seqs` (the front-to-back search `position`), `Text` (ASCII lowercasing, substring search, splitting on a
separator and joining back, Unicode-whitespace trimming, base-10 `u8` parsing), `Disk` (the file
system as a value), `Configuration`, `QuakeFiles` (the catalogue record), `App`, `Installers`,
`GamePlayers`, `SearchEvent`, `Locales`, `ListView`.

The file system is a value `FileSystem(files, locked)`: `files` maps each path to the CRC-32 of
its content, and `locked` is the set of paths where creating or removing a file fails. Operations
that touch the disk take a `FileSystem` and return the new one. A zip archive is a sequence of
`ZipEntry(name, crc, readable)`, where `readable` is false for an entry the zip library cannot
open. The directory listing read by `process_zip_files` is a parameter mapping each file name to
its content's CRC-32. A download is a parameter: the CRC-32 of the bytes received, or `None`
when the request failed.

A `panic!`, `unwrap` or `expect` that a caller can reach is modelled in one of three ways:

- as `None` where the source's contract is naturally an "iff": `GetFromId`, `GetDate`,
  `QInjector.PlayQuakeMap`, `ListView.RatingImage` (the out-of-range `images[rating as usize]`);
- as a precondition: the archive lookup in `extract_data_from_zip` (`Locatable`), which the
  install button only reaches with names the scan found (`ClassifyExtractIsLocatable`), and
  `Locales.GetChoice`, whose panicking case the default configuration does reach (see Findings);
- as an install that stops (`completed` false) in `Installer.UnpackZipToDir`. The files written
  before the panic stay on disk.

## Model

| member | source | states |
|---|---|---|
| Seqs.FirstIndex | src/configuration.rs:127 | `position`: the index found is the first element passing the test, and "none" is written as the length; the same search finds a catalogue entry (src/app.rs:33) and an archive entry (src/app.rs:214-217) |
| Configuration.IsInstalled | src/configuration.rs:141-143 | `any` agrees with `position`: true iff the search finds a pack with the id |
| Configuration.Find | src/configuration.rs:137-139 | `None` iff no pack has the id; otherwise a registered pack with that id, the earliest one |
| Configuration.RemoveFirst | src/configuration.rs:126-135 | one pack shorter when the id is registered, unchanged otherwise |
| Configuration.LocalMaps.constructor | src/configuration.rs:112-120 | the registry starts as the list loaded at start-up |
| Configuration.LocalMaps.AddMap | src/configuration.rs:122-124 | appends the pack at the end, with no uniqueness check |
| Configuration.LocalMaps.RemoveMap | src/configuration.rs:126-135 | deletes exactly the first pack with the id, keeping the others in order; no change when absent |
| Configuration.LocalMaps.GetMapById | src/configuration.rs:137-139 | the first pack with the id; `None` iff none has it |
| Configuration.LocalMaps.IsMapInstalled | src/configuration.rs:141-143 | true iff `GetMapById` finds a pack |
| Configuration.RemoveFirstDeletesFirst | src/configuration.rs:126-135 | removal cuts out the first matching pack; everything before and after keeps its order |
| Configuration.RemoveFirstMultiset | src/configuration.rs:126-135 | removal takes away one copy of the found pack and nothing else |
| Configuration.CountPositive | src/configuration.rs:141-143 | an id is installed iff at least one pack carries it |
| Configuration.RemoveFirstCount | src/configuration.rs:126-135 | removal lowers the count of that id by one when installed, and no other id's count |
| Configuration.AddThenInstalled | src/configuration.rs:122-143 | after adding a pack its id is installed, and earlier packs are where they were |
| Configuration.AddThenRemove | src/configuration.rs:122-135 | add then remove restores the registry iff the id was new; otherwise the older pack goes and the new one stays |
| Configuration.AddThenRemoveInstalled | src/configuration.rs:122-143 | after add then remove, the id is installed iff it was installed before |
| Configuration.AddTwiceRemoveOnce | src/configuration.rs:122-143 | a pack added twice and removed once is still installed |
| Disk.Create | src/app.rs:334-343 | creating a file succeeds iff its path is not locked, and then sets exactly that path's content |
| Disk.Remove | src/app.rs:262-268 | removing succeeds iff the file exists and is not locked, and then drops exactly that path |
| Disk.RemoveAll | src/app.rs:260-269 | after trying every path, a file remains iff it was not listed or could not be removed; contents are kept |
| Disk.JoinPath | src/app.rs:333 | `{dir}/{name}`: the directory, a slash, then the name |
| Disk.JoinPathInjective | src/app.rs:333 | different names in one directory give different paths |
| Disk.ZipPath | src/app.rs:79 | the whole `{download_dir}/{id}.zip` layout: the download directory, a slash, the id, then `.zip` |
| Disk.ZipPathInjective | src/app.rs:79 | different ids are cached at different paths |
| Text.LowerChar | src/app.rs:159 | ASCII upper-case letters map to lower case, and every other character is unchanged |
| Text.Lower | src/app.rs:159 | lowercasing keeps the length and lowercases each character |
| Text.LowerIdempotent | src/connect_search_event.rs:77-78 | lowercasing twice is lowercasing once |
| Text.LowerAppend | src/connect_search_event.rs:77-78 | lowercasing distributes over concatenation |
| Text.ContainsEmpty | src/connect_search_event.rs:79 | the empty string occurs in every string |
| Text.ContainsSelf | src/connect_search_event.rs:79 | every string contains itself |
| Text.Split | src/app.rs:301 | splitting always yields at least one piece |
| Text.JoinSplit | src/app.rs:301 | joining the pieces with the separator gives the line back |
| Text.SplitPieces | src/game_player.rs:23 | there is one piece more than there are separators, and no piece contains one |
| Text.SplitJoin | src/game_player.rs:23 | splitting a join of separator-free pieces gives the pieces back |
| Text.TrimStart | src/connect_search_event.rs:12 | drops exactly the leading whitespace |
| Text.TrimEnd | src/connect_search_event.rs:12 | drops exactly the trailing whitespace |
| Text.Trim | src/connect_search_event.rs:12 | the result is a slice of the input with no whitespace at either end |
| Text.TrimIdempotent | src/connect_search_event.rs:12 | trimming twice is trimming once |
| Text.ParseU8 | src/list_view.rs:64-67 | parses iff the text is an optional `+` then one or more digits of value below 256; the value is that number |
| Text.DecimalRoundTrip | src/list_view.rs:64 | the decimal digits of a number read back as that number |
| Text.ParseU8RoundTrip | src/list_view.rs:64-67 | every `u8` written in decimal parses back to itself |
| App.MapsDir | src/app.rs:207 | the maps directory is `{quake_dir}/id1/maps`: the path `maps` inside `id1` inside the Quake directory |
| App.EntryPosition | src/app.rs:214-217 | the position `file_names().position(..)` finds: no later than the end, the entry there has the lowercased name, and no earlier entry has it |
| App.IsDupe | src/app.rs:161-184 | a conflicting duplicate is a file on disk with the entry's lowercased name that is not identical to the entry |
| App.Classify | src/app.rs:153-201 | the two lists together have as many names as the archive has entries |
| App.ClassifyIsSelect | src/app.rs:155-193 | the lists are the order-preserving selections of lowercased names whose entry is, or is not, a conflicting duplicate |
| App.ClassifyPartitions | src/app.rs:159-193 | the two lists split the lowercased names as a multiset; a name is a duplicate iff some entry with it has the same on-disk name and a different CRC-32 |
| App.ClassifyEmptyDirectory | src/app.rs:161-184 | with an empty maps directory every name is extracted and none is a duplicate |
| App.ClassifyExtractIsLocatable | src/connect_install_map.rs:14-22 | when every entry opens, every name the scan lists for extraction is found in the archive and its entry opens, so the extraction's precondition holds for the list the install button passes on |
| App.IdenticalFileIsExtracted | src/app.rs:168-192 | an entry identical to the file on disk goes into the extract list |
| App.ClassifyIntended | src/app.rs:118-125 | the documented scan, with identical files dropped, never lists more names than entries |
| App.ClassifyIntendedDropsIdentical | src/app.rs:118-125 | in the documented scan a name is extracted iff no file of that name is on disk, and is a duplicate iff some entry differs from it |
| App.IdenticalFileIsReextracted | src/app.rs:124-125 | an archive holding a file identical to the one on disk: the code extracts it, the documented scan lists it nowhere |
| App.EntryNames | src/app.rs:215-216 | the names `file_names()` yields when it follows the archive's order |
| App.OpenedEntry | src/app.rs:214-220 | for any enumeration order of the names, the entry opened is the archive's entry at the position of the first listed name that matches; `None` (the panic) iff no name matches at a valid index |
| App.EnumerationOrderOpensOtherEntry | src/app.rs:214-220 | with the names listed in another order than the archive's, asking for `a.bsp` opens `b.bsp` |
| App.ArchiveOrderOpensNamedEntry | src/app.rs:214-220 | with the names listed in archive order, the entry opened is the first entry whose lowercased name is the requested one |
| App.LocatableSuffix | src/app.rs:212-217 | every prefix and suffix of a locatable request is locatable |
| App.Manifest | src/app.rs:221-226 | one record per requested name, in request order, named by that name |
| App.ManifestRecordsFirstEntry | src/app.rs:214-226 | each record holds the CRC-32 of the first archive entry with that lowercased name (readable by precondition) |
| App.ExtractFile | src/app.rs:326-346 | `{dir}/{lowercased name}` is created with the entry's content iff that path is not locked |
| App.ExtractAll | src/app.rs:212-228 | extraction completes iff no requested target path is locked |
| App.ExtractAllKeeps | src/app.rs:212-228 | a path that no requested name targets keeps its content |
| App.ExtractAllWritesName | src/app.rs:212-228 | after a complete extraction each target holds the content of the first entry with that name |
| App.ExtractAllWrites | src/app.rs:212-228 | after a complete extraction each target holds its manifest checksum, and all other paths are unchanged |
| App.FirstLocked | src/app.rs:212-228 | the first requested name whose target cannot be created |
| App.ExtractAllStops | src/app.rs:212-228 | extraction stops at that first name: it completes iff there is none, and the disk is as after extracting only the names before it |
| App.InstalledPaths | src/app.rs:260-261 | the files removed are `{quake_dir}/id1/maps/{name}`, one per manifest entry |
| App.ExtractThenUninstall | src/app.rs:204-272 | uninstalling a pack right after its complete extraction removes every file it wrote |
| App.CommandLinePieces | src/app.rs:299-304 | no command line gives no extra arguments; a command line gives one more piece than it has spaces, and the pieces join back into it |
| App.QInjector.constructor | src/app.rs:410-414 | the application holds the catalogue, configuration and registry it was given |
| App.QInjector.GetFileById | src/app.rs:31-34 | the first catalogue entry with the id; `None` iff there is none |
| App.QInjector.GetMutFileById | src/app.rs:36-38 | the index of that same entry, found iff `GetFileById` finds it |
| App.QInjector.UpdateCurrentFileDownloadStatus | src/app.rs:274-283 | sets the installed flag of the first entry with the id and changes nothing else; an unknown id changes nothing |
| App.QInjector.ProcessZipFiles | src/app.rs:126-202 | `None` iff the zip or the directory cannot be read or an entry cannot be opened; otherwise the classification |
| App.QInjector.StartMapInstall | src/app.rs:72-85 | a failed download writes nothing; otherwise the archive is cached at its zip path and scanned, and a failed write gives `None` |
| App.QInjector.ExtractDataFromZip | src/app.rs:204-249 | the disk is as extraction leaves it; the registry gains `MapPack(id, manifest)` iff every file was written, and is unchanged otherwise |
| App.QInjector.UninstallMap | src/app.rs:251-272 | false and no change iff the id is not registered; otherwise every manifest file is tried under `id1/maps`, failures ignored, and the first pack is removed |
| App.QInjector.PlayQuakeMap | src/app.rs:285-307 | `None` (the panic) iff the id is not in the catalogue; otherwise `-basedir`, the Quake directory, the command-line pieces, `+map` and the start map |
| App.PlayArgumentsKeepCommandLine | src/app.rs:299-305 | the arguments between the Quake directory and `+map` are one more than the line's spaces and join back into the catalogue's command line |
| GamePlayers.GameArguments | src/game_player.rs:21-32 | at least one game argument: the command line's pieces, or `-game {map_id}` |
| GamePlayers.Arguments | src/game_player.rs:18-36 | the reference argument vector, with at least the base-directory pair and one game argument |
| GamePlayers.PlayQuakeMap | src/game_player.rs:16-39 | the program is the Quake executable and the vector is the reference argument list |
| GamePlayers.ArgumentsShape | src/game_player.rs:18-36 | the vector starts `-basedir`, then the Quake directory, and has 2 + (pieces, or 2) + (2 with a start map) entries |
| GamePlayers.ArgumentsCarryCommandLine | src/game_player.rs:21-32 | with a command line its pieces follow in order and join back to it, and no `-game` is added; without one `-game {map_id}` follows |
| GamePlayers.ArgumentsEndWithStartMap | src/game_player.rs:33-36 | a start map is always the last two arguments `+map {start_map}`; without one nothing follows the game arguments |
| Installers.EntryRecords | src/installer.rs:106-116 | one record per archive entry, in archive order, with the entry's checksum and lowercased name |
| Installers.Unpack | src/installer.rs:103-129 | unpacking completes iff every entry is readable and no target `{quake_dir}/{lowercased name}` is locked |
| Installers.UnpackWritesEntries | src/installer.rs:117-120 | files already on disk stay, and after a complete unpack every entry's target exists |
| Installers.UnpackKeeps | src/installer.rs:103-129 | a path that is no entry's target keeps its presence and content, whether or not the unpacking completes |
| Installers.UnpackWritesLast | src/installer.rs:106-120 | after a complete unpack each entry's target holds the content of the last entry with the same lowercased name, since later entries overwrite earlier ones |
| Installers.UninstallPaths | src/installer.rs:63-64 | the files `uninstall_map` removes are `{quake_dir}/id1/maps/{name}` |
| Installers.IntendedUninstallPaths | src/installer.rs:117 | the paths unpacking wrote are `{quake_dir}/{name}` |
| Installers.UninstallPathMisses | src/installer.rs:63-117 | an unpacked path equals an uninstall path only if the name itself starts with `id1/maps/` |
| Installers.UnpackedFilesSurviveUninstall | src/installer.rs:61-120 | as written, uninstalling after a complete unpack removes none of the unpacked files, when no entry name starts with `id1/maps/` |
| Installers.IntendedUninstallRemovesUnpacked | src/installer.rs:103-129 | with the intended paths, uninstalling after a complete unpack removes every unpacked file |
| Installers.DefaultInstallerMissesItsFile | src/installer.rs:22-74 | with the default Quake directory, `e1m1.bsp` is written to one path and removal looks for another |
| Installers.Installer.constructor | src/installer.rs:22-32 | the hard-coded download and Quake directories; empty `path_string` and `map_id`; no installed pack |
| Installers.Installer.Rebuild | src/installer.rs:34-52 | the struct literal of the builder-style replacers: the new installer holds exactly the given fields |
| Installers.Installer.WithPathString | src/installer.rs:34-42 | a new installer differing only in `path_string` |
| Installers.Installer.WithMapId | src/installer.rs:44-52 | a new installer differing only in `map_id` |
| Installers.Installer.GetFileFromRemote | src/installer.rs:76-101 | writes `{download_dir}/{map_id}.zip` only when bytes arrived and the path is writable; otherwise nothing changes |
| Installers.Installer.UnpackZipToDir | src/installer.rs:103-129 | the disk is as unpacking leaves it; the installed pack is `MapPack(map_id, records)` iff every entry was written, and is kept otherwise |
| Installers.Installer.InstallMap | src/installer.rs:54-59 | downloads, then unpacks the archive on the resulting disk; when the archive cannot be opened the panic leaves the disk with only the cached download; the directories, `path_string` and `map_id` are kept |
| Installers.Installer.UninstallMap | src/installer.rs:61-74 | tries every `{quake_dir}/id1/maps/{name}` and goes on after failures |
| SearchEvent.CompareText | src/connect_search_event.rs:76-80 | empty text matches every string, and a match is never longer than the string searched |
| SearchEvent.CompareTextIgnoresCase | src/connect_search_event.rs:76-80 | matching ignores ASCII case in both arguments |
| SearchEvent.CompareTextEmptyAndSelf | src/connect_search_event.rs:76-80 | empty text matches every string, and every string matches itself |
| SearchEvent.MatchesIgnoresOtherFields | src/connect_search_event.rs:55-60 | entries that agree on id, title, author and date are kept or dropped together; rating and description are never searched |
| SearchEvent.Matches | src/connect_search_event.rs:55-59 | the keep rule over id, title, author and date: an empty filter keeps every entry, and a text longer than all four fields keeps none |
| SearchEvent.RowOf | src/connect_search_event.rs:61-68 | a row's installed flag is set exactly when the registry finds a pack with the entry's id; the other five values are the entry's id, title, author, date and rating |
| SearchEvent.Filtered | src/connect_search_event.rs:54-71 | never more rows than catalogue entries, and one row per entry for an empty filter |
| SearchEvent.KeptIndices | src/connect_search_event.rs:55-71 | the kept positions are increasing, each matches, and every matching position is kept |
| SearchEvent.FilteredIsSubsequence | src/connect_search_event.rs:54-71 | the shown rows are exactly the rows of the kept entries, in catalogue order |
| SearchEvent.ChangeListData | src/connect_search_event.rs:42-74 | the clear button is enabled iff there is text; the list is emptied and then holds exactly the filtered rows |
| SearchEvent.UpdateList | src/connect_search_event.rs:10-40 | the list is filtered by the trimmed entry text |
| Locales.GetName | src/locales.rs:56-62 | `EnUs` is named `en-US` and `EsEs` is named `es-ES`, and no other way round |
| Locales.GetNameInjective | src/locales.rs:56-62 | different choices have different names |
| Locales.GetChoice | src/locales.rs:28-35 | an `Other` gives back its string |
| Locales.DefaultChoiceReachesPanic | src/configuration.rs:99 | the default configuration's choice is the variant `get_choice` panics on, though written out and read back it would be accepted |
| Locales.WrittenNameExtendsGetChoice | src/locales.rs:28-35 | reading a choice by the name it is written under agrees with `get_choice` on every string and gives the default choice `en-US` |
| Locales.Serialize | src/locales.rs:39-52 | a choice is written as its name; any other string is written unchanged |
| Locales.Deserialize | src/locales.rs:20-25 | the read value is a choice iff the text is a variant name; otherwise it is `Other` holding the text |
| Locales.ChoiceRoundTrip | src/locales.rs:16-49 | a written choice reads back as `Other` holding exactly its name |
| Locales.OtherRoundTrip | src/locales.rs:20-49 | a written `Other(s)` reads back as itself iff `s` is not a variant name |
| ListView.Discriminant | src/list_view.rs:247-255 | column ids run 0 to 6 |
| ListView.GetFromId | src/list_view.rs:258-268 | a name exists iff the id is between 0 and 6 |
| ListView.GetFromIdOfDiscriminant | src/list_view.rs:247-268 | every column's id maps to that column's name, and distinct columns have distinct ids |
| ListView.RatingValue | src/list_view.rs:64-67 | the rating is the parsed `u8`, or 0 when the text does not parse |
| ListView.RatingValueOfDecimal | src/list_view.rs:64-67 | a decimal rating reads as its number; unparsable text rates 0 |
| ListView.RatingImage | src/list_view.rs:68 | an image exists iff the rating is below the six images; it is the image at that rating |
| ListView.RatingSortFn | src/list_view.rs:215-227 | rows order as their numeric ratings do |
| ListView.RatingSortIsNumeric | src/list_view.rs:215-227 | the rating `10` sorts after `9` |
| ListView.FirstParse | src/list_view.rs:235-245 | `None` iff no format parses; otherwise the result of the earliest format that does |
| ListView.GetDate | src/list_view.rs:235-245 | tries the four formats in their listed order and returns the first parse |

## Left out

- HTTP fetching (`get_file_from_remote`, `parse_bytes_from_remote`, `parse_bytes_from_response`): a download is a parameter, the CRC-32 of the bytes received or `None`.
- App.EntryPosition: assumes that `file_names()` lists the entries in archive order, so that the position it finds is the index `by_index` opens. The zip library's version is not part of this model; in releases where `file_names()` walks a hash map's keys the order is arbitrary, and `OpenedEntry` models that case (see Findings). The extraction (`Manifest`, `ExtractAll`, `QInjector.ExtractDataFromZip`) uses the archive-order lookup.
- App.ExtractThenUninstall: holds because one `locked` set decides both whether a file can be created and whether it can be removed. A path that can be created but not removed is not modelled.
- App.QInjector: `localMaps` is one shared `LocalMaps` object. The source holds `LocalMaps` by value inside a `Clone` struct, and the install button works on a clone (src/connect_install_map.rs:11-13), so its registry update lands in that copy. Copies and their divergence are not modelled.
- Installers.Installer.InstallMap: the archive it unpacks is a parameter. It is not read back from the bytes `GetFileFromRemote` cached, as `QInjector.StartMapInstall` does not read them back either.
- Zip parsing and CRC-32: an archive is a sequence of entries that carry their stored checksum. Reading a directory entry's bytes to checksum them, and the `unwrap`s on `DirEntry` and `File::open` at src/app.rs:152 and 171, are folded into the listing parameter.
- Copying an entry's bytes once its file exists (`std::io::copy(...).expect`) is assumed to succeed: a created file holds the entry's content.
- App.QInjector.ExtractDataFromZip: receives the opened archive; the `unwrap` when the cached archive cannot be reopened (src/app.rs:210) is not modelled. The `Err` branch of the `MapPackBuilder` (src/app.rs:241-244) is unreachable, since both fields are always set, and is omitted.
- App.QInjector.StartMapInstall: the archive and the directory listing it scans are parameters, not read back from the modelled disk.
- XML persistence (`read_or_initialize`, `write_to_file`, `write_local_maps`) and locale file loading (`init_locale`, `read_locale_file`).
- Locales.GetChoice: the precondition `n.Other?` excludes the `NestedEnum` case that the default configuration (src/configuration.rs:99) reaches when `Configuration::new` (src/configuration.rs:38-49) finds no readable configuration file; that path panics in the source and is recorded under Findings. `Configuration::new` itself is not part of this model.
- Locales.Deserialize: models the untagged rule of the derived deserializer (a unit variant accepts only its own name), not the XML reader itself.
- Threads, channels and the GTK widgets: list population on a worker thread, re-selecting the previously selected row after filtering, selection modes, and column construction.
- Process spawning (`Command::output`) and the debug string of the command that `GamePlayer::play_quake_map` logs; only the program and argument vector are modelled.
- `display_data_in_list`: only its rating parse and image index are modelled. Row building and the date reformatting through chrono are not.
- `date_sort_fn` and chrono's date parsing: `GetDate` takes the parser as a parameter, and date ordering is not modelled.
- ListView.GetFromId: takes an unbounded integer for the `i32` id; no wrap-around arises because only the match is modelled.
- Configuration setters, the `Configuration` constructor, the image loader and `load_map_image` are outside this model.
- The source declares `LocalMaps::new` and `Installer::new` with signatures that disagree with their callers (src/app.rs:408, src/connect_detail_buttons.rs:36). Each is modelled as written in its own file.

## Findings

| source | as written | input that shows it | evidently intended | confidence | as-written member | corrected member |
|---|---|---|---|---|---|---|
| src/installer.rs:64 | `uninstall_map` removes `{quake_dir}/id1/maps/{name}`, but `unpack_zip_to_dir` wrote `{quake_dir}/{name}` (line 117) and the default `quake_dir` already ends in `id1/maps` | default installer, archive with entry `e1m1.bsp`: written to `.../Quake/id1/maps/e1m1.bsp`, removal tries `.../Quake/id1/maps/id1/maps/e1m1.bsp` | remove the paths that unpacking wrote, `{quake_dir}/{name}` | high; not executed | Installers.UnpackedFilesSurviveUninstall | Installers.IntendedUninstallRemovesUnpacked |
| src/app.rs:124-125 | the scan puts an entry identical to the file on disk (same name, same CRC-32) into `files_to_extract` (line 192) | maps directory holding `e1m1.bsp` with CRC 7, archive entry `E1M1.BSP` with CRC 7: the code lists `e1m1.bsp` for extraction | the doc comment: exact duplicates are removed from both lists | medium; not executed | App.IdenticalFileIsReextracted | App.ClassifyIntendedDropsIdentical |
| src/app.rs:214-220 | the index of the requested name within `file_names()` is passed to `by_index`, which counts entries in archive order | names enumerated as `b.bsp, a.bsp` for an archive holding `a.bsp` (CRC 1) then `b.bsp` (CRC 2), request `a.bsp`: `b.bsp` is opened, written and recorded | open the entry that has the requested name (`by_name`, or a position taken in archive order) | medium; not executed; depends on the zip library's `file_names()` order | App.EnumerationOrderOpensOtherEntry | App.ArchiveOrderOpensNamedEntry |
| src/locales.rs:31 | `get_choice` panics on `NestedEnum`, and the default configuration holds `NestedEnum(EnUs)` (src/configuration.rs:99), on which `Configuration::new` calls `get_choice` (src/configuration.rs:49) | first start with no `config.xml`, or one that does not parse: `read_or_initialize` returns the default and `get_choice` panics | read a `NestedEnum` as its locale name, as the serializer writes it | high; not executed | Locales.DefaultChoiceReachesPanic | Locales.WrittenNameExtendsGetChoice |
