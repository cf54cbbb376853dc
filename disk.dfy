/** The outside world the installer touches, as values: zip archive entries and a file
    system in which each file is known by the CRC-32 of its bytes. Whether creating or
    removing a file succeeds is decided by the file system value itself (an oracle). */
module Disk {

  /** Rust's `u32`, the width of a CRC-32. */
  newtype u32 = x: int | 0 <= x < 0x1_0000_0000

  /** One entry of a zip archive's central directory: its stored name, its stored CRC-32,
      and whether `ZipArchive::by_index` can open it (false for a corrupt local header or an
      unsupported compression method). */
  datatype ZipEntry = ZipEntry(name: string, crc: u32, readable: bool)

  /** Files by full path, each with the CRC-32 of its content; `locked` are the paths where
      `File::create` and `remove_file` fail (no permission, missing parent directory). */
  datatype FileSystem = FileSystem(files: map<string, u32>, locked: set<string>)

  /** `File::create` at `path` followed by copying content whose CRC-32 is `crc`. */
  function Create(fs: FileSystem, path: string, crc: u32): (r: (bool, FileSystem))
    ensures r.0 <==> path !in fs.locked
    ensures r.0 ==> r.1.files == fs.files[path := crc]
    ensures !r.0 ==> r.1 == fs
    ensures r.1.locked == fs.locked
  {
    if path in fs.locked then (false, fs) else (true, fs.(files := fs.files[path := crc]))
  }

  /** `std::fs::remove_file`: fails when there is no such file or the path is locked. */
  function Remove(fs: FileSystem, path: string): (r: (bool, FileSystem))
    ensures r.0 <==> path in fs.files && path !in fs.locked
    ensures r.0 ==> r.1.files == fs.files - {path}
    ensures !r.0 ==> r.1 == fs
    ensures r.1.locked == fs.locked
  {
    if path in fs.files && path !in fs.locked then (true, fs.(files := fs.files - {path})) else (false, fs)
  }

  /** Best-effort removal of every path in turn; a failed removal is skipped. */
  function RemoveAll(fs: FileSystem, paths: seq<string>): (r: FileSystem)
    ensures r.locked == fs.locked
    ensures forall p :: p in r.files <==> p in fs.files && (p !in paths || p in fs.locked)
    ensures forall p :: p in r.files ==> r.files[p] == fs.files[p]
    decreases |paths|
  {
    if paths == [] then fs else RemoveAll(Remove(fs, paths[0]).1, paths[1..])
  }

  /** `format!("{}/{}", dir, name)` */
  function JoinPath(dir: string, name: string): (r: string)
    ensures |r| == |dir| + 1 + |name|
    ensures r[..|dir|] == dir && r[|dir|] == '/' && r[|dir| + 1..] == name
  {
    dir + "/" + name
  }

  /** Different names in one directory are different paths. */
  lemma JoinPathInjective(dir: string, a: string, b: string)
    requires JoinPath(dir, a) == JoinPath(dir, b)
    ensures a == b
  {
    assert a == JoinPath(dir, a)[|dir| + 1..];
  }

  /** `format!("{}/{}.zip", download_dir, id)`: where a map pack's archive is cached. */
  function ZipPath(downloadDir: string, id: string): (r: string)
    ensures |r| == |downloadDir| + |id| + 5
    ensures r[..|downloadDir|] == downloadDir && r[|r| - 4..] == ".zip"
    ensures r[|downloadDir|] == '/' && r[|downloadDir| + 1..|r| - 4] == id
  {
    downloadDir + "/" + id + ".zip"
  }

  /** Different map ids are cached at different paths of the same download directory. */
  lemma ZipPathInjective(downloadDir: string, a: string, b: string)
    requires ZipPath(downloadDir, a) == ZipPath(downloadDir, b)
    ensures a == b
  {
    var pa, pb := ZipPath(downloadDir, a), ZipPath(downloadDir, b);
    assert |a| == |b|;
    assert forall i :: 0 <= i < |a| ==> a[i] == pa[|downloadDir| + 1 + i] == pb[|downloadDir| + 1 + i] == b[i];
  }
}
