/** The registry of installed map packs (`LocalMaps`, `MapPack`, `FileInfo`) and the
    paths the rest of the program reads from the configuration. */
module Configuration {
  import opened Wrappers
  import opened Disk
  import opened Seqs

  /** One file a map pack put on disk: its CRC-32 and its lowercased name. */
  datatype FileInfo = FileInfo(crc: u32, name: string)

  /** An installed map pack: its catalogue id and the files it installed, in order. */
  datatype MapPack = MapPack(id: string, files: seq<FileInfo>)

  /** The three paths of `Configuration` that installing and playing use; the rest of
      it (locale, expansion flags, cache directories) is not part of this model. */
  datatype Config = Config(quakeDir: string, quakeExe: string, downloadDir: string)

  // ---------------------------------------------------------------------------
  // Queries over the ordered registry
  // ---------------------------------------------------------------------------

  /** `iter().position(|map| map.id == id)`, with "none" written as `|maps|`. */
  function Position(maps: seq<MapPack>, id: string): nat {
    FirstIndex(maps, (m: MapPack) => m.id == id)
  }

  /** `iter().any(|map| map.id == id)`: it agrees with `position` finding a pack. */
  function IsInstalled(maps: seq<MapPack>, id: string): (b: bool)
    ensures b <==> Position(maps, id) < |maps|
  {
    exists i :: 0 <= i < |maps| && maps[i].id == id
  }

  /** `iter().find(|map| map.id == id)`: the first pack with that id, `None` iff there is none. */
  function Find(maps: seq<MapPack>, id: string): (r: Option<MapPack>)
    ensures r.None? <==> !IsInstalled(maps, id)
    ensures r.Some? ==> r.value.id == id && r.value in maps
    ensures r.Some? ==> exists k :: 0 <= k < |maps| && r.value == maps[k] && r.value.id == id
                                    && forall j :: 0 <= j < k ==> maps[j].id != id
  {
    var k := Position(maps, id);
    if k < |maps| then Some(maps[k]) else None
  }

  /** The registry after deleting the first pack with this id, or unchanged if there is none. */
  function RemoveFirst(maps: seq<MapPack>, id: string): (r: seq<MapPack>)
    ensures IsInstalled(maps, id) ==> |r| == |maps| - 1
    ensures !IsInstalled(maps, id) ==> r == maps
  {
    var k := Position(maps, id);
    if k < |maps| then maps[..k] + maps[k + 1..] else maps
  }

  /** How many packs carry this id. */
  function CountId(maps: seq<MapPack>, id: string): nat {
    if maps == [] then 0 else (if maps[0].id == id then 1 else 0) + CountId(maps[1..], id)
  }

  // ---------------------------------------------------------------------------
  // The registry object, updated in place
  // ---------------------------------------------------------------------------

  class LocalMaps {
    var maps: seq<MapPack>

    /** The registry as loaded at start-up (reading `installedMaps.xml` is not part of this model). */
    constructor (loaded: seq<MapPack>)
      ensures maps == loaded
    {
      maps := loaded;
    }

    /** Appends; a pack whose id is already registered is added a second time. */
    method AddMap(pack: MapPack)
      modifies this
      ensures maps == old(maps) + [pack]
    {
      maps := maps + [pack];
    }

    /** Deletes the first pack with this id; with no such pack it only logs. */
    method RemoveMap(id: string)
      modifies this
      ensures maps == RemoveFirst(old(maps), id)
      ensures IsInstalled(old(maps), id) ==> exists k :: 0 <= k < |old(maps)| && old(maps)[k].id == id
                                                     && maps == old(maps)[..k] + old(maps)[k + 1..]
    {
      var pos := 0;
      while pos < |maps| && maps[pos].id != id
        invariant 0 <= pos <= |maps|
        invariant forall j :: 0 <= j < pos ==> maps[j].id != id
      {
        pos := pos + 1;
      }
      if pos == |maps| {
        return;
      }
      maps := maps[..pos] + maps[pos + 1..];
    }

    /** The first pack with this id, `None` iff no pack has it. */
    function GetMapById(id: string): (r: Option<MapPack>)
      reads this
      ensures r.None? <==> forall i :: 0 <= i < |maps| ==> maps[i].id != id
      ensures r.Some? ==> exists k :: 0 <= k < |maps| && r.value == maps[k] && r.value.id == id
                                      && forall j :: 0 <= j < k ==> maps[j].id != id
    {
      Find(maps, id)
    }

    function IsMapInstalled(id: string): (b: bool)
      reads this
      ensures b <==> GetMapById(id).Some?
    {
      IsInstalled(maps, id)
    }
  }

  // ---------------------------------------------------------------------------
  // What adding and removing do to later queries
  // ---------------------------------------------------------------------------

  /** Removing deletes exactly one pack, the first with that id; the others keep their order. */
  lemma RemoveFirstDeletesFirst(maps: seq<MapPack>, id: string)
    requires IsInstalled(maps, id)
    ensures exists k :: 0 <= k < |maps| && maps[k].id == id && (forall j :: 0 <= j < k ==> maps[j].id != id)
                        && RemoveFirst(maps, id) == maps[..k] + maps[k + 1..]
  {
    var k := Position(maps, id);
    assert maps[k].id == id && forall j :: 0 <= j < k ==> maps[j].id != id;
    assert RemoveFirst(maps, id) == maps[..k] + maps[k + 1..];
  }

  /** Every other pack's multiplicity is kept; the removed one loses one copy. */
  lemma RemoveFirstMultiset(maps: seq<MapPack>, id: string)
    requires IsInstalled(maps, id)
    ensures multiset(RemoveFirst(maps, id)) == multiset(maps) - multiset{Find(maps, id).value}
  {
    var k := Position(maps, id);
    assert maps == maps[..k] + [maps[k]] + maps[k + 1..];
  }

  lemma {:induction false} CountAppend(maps: seq<MapPack>, more: seq<MapPack>, id: string)
    ensures CountId(maps + more, id) == CountId(maps, id) + CountId(more, id)
  {
    if maps != [] {
      CountAppend(maps[1..], more, id);
      assert (maps + more)[1..] == maps[1..] + more;
    } else {
      assert maps + more == more;
    }
  }

  lemma {:induction false} CountPositive(maps: seq<MapPack>, id: string)
    ensures IsInstalled(maps, id) <==> CountId(maps, id) > 0
  {
    if maps != [] {
      CountPositive(maps[1..], id);
      if maps[0].id != id && IsInstalled(maps, id) {
        var i :| 0 <= i < |maps| && maps[i].id == id;
        assert maps[1..][i - 1].id == id;
      }
      if CountId(maps[1..], id) > 0 {
        var i :| 0 <= i < |maps| - 1 && maps[1..][i].id == id;
        assert maps[i + 1].id == id;
      }
    }
  }

  /** Removing takes one pack with that id away and leaves the count of every other id alone. */
  lemma RemoveFirstCount(maps: seq<MapPack>, id: string, other: string)
    ensures CountId(RemoveFirst(maps, id), other) ==
            CountId(maps, other) - (if other == id && IsInstalled(maps, id) then 1 else 0)
  {
    if IsInstalled(maps, id) {
      var k := Position(maps, id);
      assert maps == maps[..k] + ([maps[k]] + maps[k + 1..]);
      CountAppend(maps[..k], [maps[k]] + maps[k + 1..], other);
      CountAppend([maps[k]], maps[k + 1..], other);
      CountAppend(maps[..k], maps[k + 1..], other);
    }
  }

  /** After `add_map(p)`, `p.id` is installed and every earlier pack is where it was. */
  lemma AddThenInstalled(maps: seq<MapPack>, p: MapPack)
    ensures IsInstalled(maps + [p], p.id)
    ensures (maps + [p])[..|maps|] == maps
  {
    assert (maps + [p])[|maps|] == p;
  }

  /** Adding a pack and removing its id gives the old registry back exactly when the id
      was not installed before; otherwise an older pack with that id is the one removed. */
  lemma AddThenRemove(maps: seq<MapPack>, p: MapPack)
    ensures !IsInstalled(maps, p.id) ==> RemoveFirst(maps + [p], p.id) == maps
    ensures IsInstalled(maps, p.id) ==> RemoveFirst(maps + [p], p.id) == RemoveFirst(maps, p.id) + [p]
  {
    var all := maps + [p];
    var k := Position(all, p.id);
    assert all[|maps|] == p;
    if IsInstalled(maps, p.id) {
      var k0 := Position(maps, p.id);
      assert all[k0] == maps[k0];
      assert k == k0;
      assert all[..k] + all[k + 1..] == maps[..k] + maps[k + 1..] + [p];
    } else {
      assert k == |maps|;
      assert all[..k] == maps;
    }
  }

  /** The id is still installed after add-then-remove iff it was installed before:
      registering an id twice and removing it once leaves it installed. */
  lemma AddThenRemoveInstalled(maps: seq<MapPack>, p: MapPack)
    ensures IsInstalled(RemoveFirst(maps + [p], p.id), p.id) <==> IsInstalled(maps, p.id)
  {
    AddThenInstalled(maps, p);
    RemoveFirstCount(maps + [p], p.id, p.id);
    CountAppend(maps, [p], p.id);
    CountPositive(maps, p.id);
    CountPositive(RemoveFirst(maps + [p], p.id), p.id);
    assert CountId([p], p.id) == 1;
  }

  /** Adding the same pack twice and removing its id once leaves it installed. */
  lemma AddTwiceRemoveOnce(maps: seq<MapPack>, p: MapPack)
    ensures IsInstalled(RemoveFirst(maps + [p] + [p], p.id), p.id)
  {
    AddThenInstalled(maps, p);
    AddThenRemoveInstalled(maps + [p], p);
  }
}
