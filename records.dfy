/** The unified review schema, the per-store record builders, the two review fetch loops
    and the merge of one or two review frames. A pandas frame indexed by `id` is modelled as
    the sequence of its rows in order; every row keeps its `id`. */
module Records {
  import opened Outcomes
  import Text

  datatype Platform = Android | IOS

  /** The `rating` column: the Android scraper gives an integer score, the iOS feed gives text. */
  datatype Rating = Score(stars: int) | RatingText(text: string)

  /** One row of the unified frame: columns updated, id, title, content, rating, version,
      author, OS and country. `title` is missing (NaN) on Android rows; `version` is missing
      when the store reports none. */
  datatype Review = Review(
    updated: string,
    id: string,
    title: Option<string>,
    content: string,
    rating: Rating,
    version: Option<string>,
    author: string,
    os: Platform,
    country: string)

  /** The text nodes of one `<entry>` of the iOS customer-review feed. */
  datatype IosEntry = IosEntry(
    updated: string,
    id: string,
    title: string,
    content: string,
    rating: string,
    version: string,
    author: string)

  /** The fields the Android scraper returns for one review, as the source reads them. */
  datatype AndroidEntry = AndroidEntry(
    at: string,
    reviewId: string,
    content: string,
    score: int,
    reviewCreatedVersion: Option<string>,
    userName: string)

  /** The author element's text runs into the reviewer's profile URI; it is cut here. */
  const AuthorUriMarker: string := "https:"
  /** The iOS feed is read for pages 1 to 20 at most. */
  const MaxPages: nat := 20

  // ---------------------------------------------------------------- iOS records

  /** One iOS row: fields copied from the entry, OS 'iOS', the requested country stamped on,
      and the author cut before the first "https:". */
  function IosRecord(e: IosEntry, country: string): (r: Review)
    ensures r.updated == e.updated && r.id == e.id && r.title == Some(e.title)
    ensures r.content == e.content && r.rating == RatingText(e.rating) && r.version == Some(e.version)
    ensures r.os == IOS && r.country == country
    ensures r.author <= e.author
    ensures forall i: nat :: i < |r.author| ==> !Text.OccursAt(e.author, AuthorUriMarker, i)
    ensures r.author == e.author || Text.OccursAt(e.author, AuthorUriMarker, |r.author|)
  {
    Review(e.updated, e.id, Some(e.title), e.content, RatingText(e.rating), Some(e.version),
           Text.Before(e.author, AuthorUriMarker), IOS, country)
  }

  /** The feed's author text is the name followed by the profile URI; a name without ':' is
      recovered exactly. */
  lemma {:induction false} IosAuthorDropsUri(e: IosEntry, country: string, name: string, uri: string)
    requires e.author == name + AuthorUriMarker + uri
    requires ':' !in name
    ensures IosRecord(e, country).author == name
  {
    var s := name + AuthorUriMarker + uri;
    forall i: nat | i < |name| ensures !Text.OccursAt(s, AuthorUriMarker, i) {
      if i + 6 <= |s| {
        var w := s[i..i + 6];
        assert w[5] == s[i + 5];
        if i + 5 < |name| {
          assert s[i + 5] == name[i + 5];
        } else {
          assert s[i + 5] == AuthorUriMarker[i + 5 - |name|];
        }
      }
    }
    Text.BeforeGlued(name, AuthorUriMarker, uri);
  }

  /** An author text that holds no "https:" is kept whole. */
  lemma IosAuthorWithoutUri(e: IosEntry, country: string)
    requires !Text.Contains(e.author, AuthorUriMarker)
    ensures IosRecord(e, country).author == e.author
  {
    var r := IosRecord(e, country);
    assert Text.OccursAt(e.author, AuthorUriMarker, |r.author|) ==> Text.Contains(e.author, AuthorUriMarker);
  }

  /** The `review_entries` loop of one feed page: one row per entry, in entry order. */
  method BuildIosRecords(entries: seq<IosEntry>, country: string) returns (rows: seq<Review>)
    ensures |rows| == |entries|
    ensures forall k | 0 <= k < |rows| :: rows[k] == IosRecord(entries[k], country)
  {
    rows := [];
    for k := 0 to |entries|
      invariant |rows| == k
      invariant forall j | 0 <= j < k :: rows[j] == IosRecord(entries[j], country)
    {
      rows := rows + [IosRecord(entries[k], country)];
    }
  }

  /** The entries of feed pages 1 to n, page after page. */
  function PagesUpTo(pages: nat -> seq<IosEntry>, n: nat): seq<IosEntry>
  {
    if n == 0 then [] else PagesUpTo(pages, n - 1) + pages(n)
  }

  /** `get_ios_reviews`: `pages(p)` is the list of entries of feed page `p` (the HTTP request
      and XML parse are the caller's), and `requested` lists the page numbers asked for, in
      order. Pages 1, 2, ... are requested until one is empty; the rows of the pages before it
      are returned. If all 20 pages have entries the loop runs off the end of the function,
      which returns None. */
  method GetIosReviews(pages: nat -> seq<IosEntry>, country: string)
    returns (result: Option<seq<Review>>, requested: seq<nat>)
    ensures 1 <= |requested| <= MaxPages
    ensures forall k | 0 <= k < |requested| :: requested[k] == k + 1
    ensures forall p | 1 <= p < |requested| :: pages(p) != []
    ensures result.Some? <==> pages(|requested|) == []
    ensures result.None? ==> |requested| == MaxPages
    ensures result.Some? ==>
      var before := PagesUpTo(pages, |requested| - 1);
      |result.value| == |before| &&
      forall j | 0 <= j < |before| :: result.value[j] == IosRecord(before[j], country)
  {
    var df: seq<Review> := [];
    var count: nat := 1;
    requested := [];
    for i := 0 to MaxPages
      invariant count == i + 1 && |requested| == i
      invariant forall k | 0 <= k < i :: requested[k] == k + 1
      invariant forall p | 1 <= p <= i :: pages(p) != []
      invariant |df| == |PagesUpTo(pages, i)|
      invariant forall j | 0 <= j < |df| :: df[j] == IosRecord(PagesUpTo(pages, i)[j], country)
    {
      requested := requested + [count];
      var entries := pages(count);
      if entries == [] {
        return Some(df), requested;
      }
      var rows := BuildIosRecords(entries, country);
      ghost var upTo := PagesUpTo(pages, count);
      assert upTo == PagesUpTo(pages, i) + entries;
      assert forall j | |df| <= j < |df| + |rows| :: upTo[j] == entries[j - |df|];
      df := df + rows;
      count := count + 1;
    }
    return None, requested;
  }

  // ------------------------------------------------------------ Android records

  /** One Android row: columns renamed at->updated, reviewId->id, score->rating,
      reviewCreatedVersion->version, userName->author; OS 'Android', the requested country,
      and no title. */
  function AndroidRecord(e: AndroidEntry, country: string): (r: Review)
    ensures r.updated == e.at && r.id == e.reviewId && r.title == None && r.content == e.content
    ensures r.rating == Score(e.score) && r.version == e.reviewCreatedVersion && r.author == e.userName
    ensures r.os == Android && r.country == country
  {
    Review(e.at, e.reviewId, None, e.content, Score(e.score), e.reviewCreatedVersion,
           e.userName, Android, country)
  }

  /** The scraper fields an Android row was built from. */
  function AndroidSource(r: Review): AndroidEntry
    requires r.rating.Score?
  {
    AndroidEntry(r.updated, r.id, r.content, r.rating.stars, r.version, r.author)
  }

  /** The renaming loses nothing: the scraper record can be read back from its row. */
  lemma AndroidRecordLossless(e: AndroidEntry, country: string)
    ensures AndroidSource(AndroidRecord(e, country)) == e
  {
  }

  /** The `review_entries` loop of `get_android_reviews`: one row per scraped record, in order. */
  method BuildAndroidRecords(records: seq<AndroidEntry>, country: string) returns (rows: seq<Review>)
    ensures |rows| == |records|
    ensures forall k | 0 <= k < |rows| :: rows[k] == AndroidRecord(records[k], country)
  {
    rows := [];
    for k := 0 to |records|
      invariant |rows| == k
      invariant forall j | 0 <= j < k :: rows[j] == AndroidRecord(records[j], country)
    {
      rows := rows + [AndroidRecord(records[k], country)];
    }
  }

  /** What the two calls to the Android scraper did: the first (newest first, `count` reviews)
      raised; or it returned and the second (from its continuation token) raised; or both
      returned their records. */
  datatype ScraperRun =
    | FirstCallRaised
    | SecondCallRaised
    | BothReturned(first: seq<AndroidEntry>, second: seq<AndroidEntry>)

  /** `get_android_reviews`: any failure of either call becomes the ValueError naming the app
      id and the review count. Otherwise the rows come from the second call only, because its
      result rebinds the first's. */
  method GetAndroidReviews(appId: string, reviewCount: int, country: string, run: ScraperRun)
    returns (r: Result<seq<Review>>)
    ensures r.Failure? <==> !run.BothReturned?
    ensures r.Failure? ==> r.error == TooFewReviews(appId, reviewCount)
    ensures r.Success? ==>
      |r.value| == |run.second| &&
      forall k | 0 <= k < |r.value| :: r.value[k] == AndroidRecord(run.second[k], country)
  {
    if !run.BothReturned? {
      return Failure(TooFewReviews(appId, reviewCount));
    }
    var rows := BuildAndroidRecords(run.second, country);
    return Success(rows);
  }

  // ---------------------------------------------------------------------- merge

  /** The opening of `to_json` and `visualise`: two frames are appended, one is taken as it is;
      any other number leaves the merged frame unbound. */
  function MergeFrames(frames: seq<seq<Review>>): (r: Result<seq<Review>>)
    ensures r.Success? <==> |frames| == 1 || |frames| == 2
    ensures r.Failure? ==> r.error == UnsupportedFrameCount(|frames|)
    ensures r.Success? && |frames| == 1 ==> r.value == frames[0]
    ensures r.Success? && |frames| == 2 ==>
      |r.value| == |frames[0]| + |frames[1]| &&
      (forall k | 0 <= k < |frames[0]| :: r.value[k] == frames[0][k]) &&
      (forall k | 0 <= k < |frames[1]| :: r.value[|frames[0]| + k] == frames[1][k])
  {
    if |frames| == 2 then Success(frames[0] + frames[1])
    else if |frames| == 1 then Success(frames[0])
    else Failure(UnsupportedFrameCount(|frames|))
  }
}
