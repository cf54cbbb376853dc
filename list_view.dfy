/** The catalogue list: column ids and names, the rating column's parse and sort order, and
    the date formats the release-date sort accepts. */
module ListView {
  import opened Wrappers
  import opened Text

  datatype Columns = Installed | Name | Title | Author | Released | Rating | RatingSort

  /** `column as i32`: declaration order from 0. */
  function Discriminant(c: Columns): (id: int)
    ensures 0 <= id <= 6
  {
    match c
    case Installed => 0
    case Name => 1
    case Title => 2
    case Author => 3
    case Released => 4
    case Rating => 5
    case RatingSort => 6
  }

  /** Each variant's own identifier. */
  function VariantName(c: Columns): string {
    match c
    case Installed => "Installed"
    case Name => "Name"
    case Title => "Title"
    case Author => "Author"
    case Released => "Released"
    case Rating => "Rating"
    case RatingSort => "RatingSort"
  }

  /** `get_from_id`: the column name for ids 0 to 6; any other id panics, written `None`. */
  function GetFromId(id: int): (r: Option<string>)
    ensures r.Some? <==> 0 <= id <= 6
  {
    match id
    case 0 => Some("Installed")
    case 1 => Some("Name")
    case 2 => Some("Title")
    case 3 => Some("Author")
    case 4 => Some("Released")
    case 5 => Some("Rating")
    case 6 => Some("RatingSort")
    case _ => None
  }

  /** The id table agrees with the enum: every column's id names that column, and distinct
      columns have distinct ids. */
  lemma GetFromIdOfDiscriminant(c: Columns, d: Columns)
    ensures GetFromId(Discriminant(c)) == Some(VariantName(c))
    ensures Discriminant(c) == Discriminant(d) ==> c == d
  {
  }

  /** The number of rating images (`[Pixbuf; 6]`). */
  const RatingImageCount: nat := 6

  /** The rating shown: the catalogue's rating text parsed as a base-10 `u8`, or 0 when it
      does not parse. */
  function RatingValue(s: string): (r: u8)
    ensures ParseU8(s).Some? ==> r == ParseU8(s).value
    ensures ParseU8(s).None? ==> r == 0
  {
    ParseU8(s).GetOr(0)
  }

  /** The rating of the decimal spelling of `n` is `n`; text that is not a number rates 0. */
  lemma RatingValueOfDecimal(n: u8, junk: string)
    requires ParseU8(junk).None?
    ensures RatingValue(DecimalString(n as nat)) == n
    ensures RatingValue(junk) == 0
  {
    ParseU8RoundTrip(n);
  }

  /** The image index for a rating text: `Some` iff it is inside the image array (0 to 5);
      a larger rating indexes past the end and panics. */
  function RatingImage(s: string): (r: Option<nat>)
    ensures r.Some? <==> (RatingValue(s) as int) < RatingImageCount
    ensures r.Some? ==> r.value == RatingValue(s) as int
  {
    var rating := RatingValue(s) as int;
    if rating < RatingImageCount then Some(rating) else None
  }

  datatype Ordering = Less | Equal | Greater

  /** `rating_sort_fn`: rows compare by the numeric value stored in the hidden sort column. */
  function RatingSortFn(rating1: u8, rating2: u8): (r: Ordering)
    ensures r == Less <==> rating1 < rating2
    ensures r == Equal <==> rating1 == rating2
    ensures r == Greater <==> rating1 > rating2
  {
    if rating1 < rating2 then Less else if rating1 == rating2 then Equal else Greater
  }

  /** Sorting by rating is by number, not by text: the rating "10" sorts after "9". */
  lemma RatingSortIsNumeric()
    ensures RatingSortFn(RatingValue("10"), RatingValue("9")) == Greater
  {
    assert DecimalString(10) == "10" && DecimalString(9) == "9";
    ParseU8RoundTrip(10);
    ParseU8RoundTrip(9);
  }

  /** The accepted release-date formats, in the order they are tried. */
  const ValidFormats: seq<string> := ["%d.%m.%Y", "%d-%m-%Y", "%m-%d-%Y", "%m.%d.%Y"]

  /** The first format that parses the value, tried in order; `None` when none does. */
  function FirstParse<D>(val: string, formats: seq<string>, parse: (string, string) -> Option<D>): (r: Option<D>)
    ensures r.None? <==> forall k :: 0 <= k < |formats| ==> parse(val, formats[k]).None?
    ensures r.Some? ==> exists k :: 0 <= k < |formats| && r == parse(val, formats[k])
                                    && forall j :: 0 <= j < k ==> parse(val, formats[j]).None?
  {
    if formats == [] then None
    else if parse(val, formats[0]).Some? then parse(val, formats[0])
    else
      var r := FirstParse(val, formats[1..], parse);
      assert forall k :: 1 <= k < |formats| ==> formats[k] == formats[1..][k - 1];
      r
  }

  /** `get_date`: tries each valid format in order and returns the first date that parses; the
      panic when none parses is `None`. Date parsing itself is the parameter `parse`. */
  method GetDate<D>(val: string, parse: (string, string) -> Option<D>) returns (r: Option<D>)
    ensures r == FirstParse(val, ValidFormats, parse)
  {
    var validFormats := ValidFormats;
    var i := 0;
    while i < |validFormats|
      invariant 0 <= i <= |validFormats|
      invariant FirstParse(val, validFormats[i..], parse) == FirstParse(val, validFormats, parse)
    {
      var dateRes := parse(val, validFormats[i]);
      if dateRes.Some? {
        return dateRes;
      }
      assert validFormats[i..][1..] == validFormats[i + 1..];
      i := i + 1;
    }
    return None;
  }
}
