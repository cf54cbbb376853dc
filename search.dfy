/** The search box: the catalogue rows shown are those whose id, title, author or date
    contains the trimmed filter text, ignoring ASCII case, in catalogue order. */
module SearchEvent {
  import opened Text
  import opened Configuration
  import opened QuakeFiles

  /** `compare_text(one, two)`: the ASCII-lowercased `two` occurs in the ASCII-lowercased `one`. */
  function CompareText(one: string, two: string): (b: bool)
    ensures two == [] ==> b
    ensures b ==> |two| <= |one|
  {
    ContainsEmpty(Lower(one));
    Contains(Lower(one), Lower(two))
  }

  /** Matching ignores ASCII case on both sides. */
  lemma CompareTextIgnoresCase(one: string, two: string)
    ensures CompareText(Lower(one), two) == CompareText(one, two)
    ensures CompareText(one, Lower(two)) == CompareText(one, two)
  {
    LowerIdempotent(one);
    LowerIdempotent(two);
  }

  /** Empty filter text matches every string, and every string matches itself. */
  lemma CompareTextEmptyAndSelf(one: string)
    ensures CompareText(one, "")
    ensures CompareText(one, one)
  {
    ContainsEmpty(Lower(one));
    ContainsSelf(Lower(one));
  }

  /** The keep rule: the text matches the entry's id, title, author or date; so an empty
      filter keeps every entry, and a text longer than all four fields keeps none. */
  function Matches(file: QuakeFile, text: string): (b: bool)
    ensures text == [] ==> b
    ensures |text| > |file.id| && |text| > |file.title| && |text| > |file.author| && |text| > |file.date| ==> !b
  {
    CompareText(file.id, text) || CompareText(file.title, text)
    || CompareText(file.author, text) || CompareText(file.date, text)
  }

  /** Rating, description, technical details and the installed flag are never searched. */
  lemma MatchesIgnoresOtherFields(file: QuakeFile, other: QuakeFile, text: string)
    requires file.id == other.id && file.title == other.title
    requires file.author == other.author && file.date == other.date
    ensures Matches(file, text) == Matches(other, text)
  {
  }

  /** One shown row: installed flag, id, title, author, date and rating text. */
  datatype SearchRow = SearchRow(installed: bool, id: string, title: string, author: string, date: string, rating: string)

  /** The values a shown row holds; its installed flag is whether the registry finds a pack
      with the entry's id. */
  function RowOf(maps: seq<MapPack>, file: QuakeFile): (r: SearchRow)
    ensures r.installed <==> Find(maps, file.id).Some?
    ensures (r.id, r.title, r.author, r.date, r.rating) == (file.id, file.title, file.author, file.date, file.rating)
  {
    SearchRow(IsInstalled(maps, file.id), file.id, file.title, file.author, file.date, file.rating)
  }

  /** The rows shown for a filter text, as a reference definition. */
  function Filtered(maps: seq<MapPack>, files: seq<QuakeFile>, text: string): (r: seq<SearchRow>)
    ensures |r| <= |files|
    ensures text == [] ==> |r| == |files|
  {
    if files == [] then []
    else
      var last := files[|files| - 1];
      Filtered(maps, files[..|files| - 1], text) + (if Matches(last, text) then [RowOf(maps, last)] else [])
  }

  /** The positions of the kept entries: increasing, each one matching, every match present. */
  function KeptIndices(files: seq<QuakeFile>, text: string): (r: seq<nat>)
    ensures forall k :: 0 <= k < |r| ==> r[k] < |files| && Matches(files[r[k]], text)
    ensures forall k, l :: 0 <= k < l < |r| ==> r[k] < r[l]
    ensures forall i :: 0 <= i < |files| && Matches(files[i], text) ==> i in r
  {
    if files == [] then []
    else
      var n := |files| - 1;
      var init := KeptIndices(files[..n], text);
      assert forall k :: 0 <= k < |init| ==> files[..n][init[k]] == files[init[k]];
      assert forall i :: 0 <= i < n ==> files[..n][i] == files[i];
      init + (if Matches(files[n], text) then [n] else [])
  }

  /** The rows shown are exactly the rows of the kept entries, in catalogue order. */
  lemma {:induction false} FilteredIsSubsequence(maps: seq<MapPack>, files: seq<QuakeFile>, text: string)
    ensures |Filtered(maps, files, text)| == |KeptIndices(files, text)|
    ensures forall k :: 0 <= k < |KeptIndices(files, text)| ==>
      Filtered(maps, files, text)[k] == RowOf(maps, files[KeptIndices(files, text)[k]])
  {
    if files != [] {
      var n := |files| - 1;
      var prefix := files[..n];
      FilteredIsSubsequence(maps, prefix, text);
      var init := KeptIndices(prefix, text);
      var rows := Filtered(maps, prefix, text);
      assert Filtered(maps, files, text) == rows + (if Matches(files[n], text) then [RowOf(maps, files[n])] else []);
      assert KeptIndices(files, text) == init + (if Matches(files[n], text) then [n] else []);
      forall k | 0 <= k < |init|
        ensures Filtered(maps, files, text)[k] == RowOf(maps, files[KeptIndices(files, text)[k]])
      {
        assert prefix[init[k]] == files[init[k]];
      }
    }
  }

  /** The list model: the rows currently shown. */
  class ListStore {
    var rows: seq<SearchRow>

    constructor ()
      ensures rows == []
    {
      rows := [];
    }
  }

  /** `change_list_data`: enables the clear button iff there is filter text, empties the list
      and appends, in catalogue order, a row for every entry the text matches. */
  method ChangeListData(list: ListStore, maps: seq<MapPack>, files: seq<QuakeFile>, text: string)
    returns (clearSensitive: bool)
    modifies list
    ensures clearSensitive <==> |text| > 0
    ensures list.rows == Filtered(maps, files, text)
  {
    clearSensitive := |text| > 0;
    list.rows := [];
    for i := 0 to |files|
      invariant list.rows == Filtered(maps, files[..i], text)
    {
      var file := files[i];
      var validId := CompareText(file.id, text);
      var validTitle := CompareText(file.title, text);
      var validAuthor := CompareText(file.author, text);
      var validDate := CompareText(file.date, text);
      assert files[..i + 1][..i] == files[..i];
      assert Filtered(maps, files[..i + 1], text)
          == Filtered(maps, files[..i], text) + (if Matches(file, text) then [RowOf(maps, file)] else []);
      if validId || validTitle || validAuthor || validDate {
        list.rows := list.rows + [RowOf(maps, file)];
      }
    }
    assert files[..|files|] == files;
  }

  /** The text-changed handler: trims the entry's text, then refills the list with it. */
  method UpdateList(list: ListStore, maps: seq<MapPack>, files: seq<QuakeFile>, entryText: string)
    returns (clearSensitive: bool)
    modifies list
    ensures clearSensitive <==> |Trim(entryText)| > 0
    ensures list.rows == Filtered(maps, files, Trim(entryText))
  {
    var text := Trim(entryText);
    clearSensitive := ChangeListData(list, maps, files, text);
  }
}
