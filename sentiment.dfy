/** The aggregation half of `visualise`: merge the frames, choose weekly or monthly buckets,
    and compute for every bucket the share of 4/5-star and of 1/2-star reviews. Ratios are
    exact `real`s. The calendar arithmetic (month start, week start of a timestamp) is given. */
module Sentiment {
  import opened Outcomes
  import opened Records
  import Decimal

  /** The month-start and week-start bucket keys of an `updated` timestamp. */
  datatype Calendar = Calendar(monthStart: string -> int, weekStart: string -> int)

  datatype Granularity = Weekly | Monthly

  /** Weekly buckets are used while the data spans at most this many distinct months. */
  const WeeklyMonthLimit: nat := 5

  /** The distinct bucket keys present in the data: `set(app_data[...])`. */
  function Keys(reviews: seq<Review>, key: string -> int): (k: set<int>)
    ensures forall i | 0 <= i < |reviews| :: key(reviews[i].updated) in k
    ensures forall b | b in k :: exists i | 0 <= i < |reviews| :: key(reviews[i].updated) == b
  {
    set i | 0 <= i < |reviews| :: key(reviews[i].updated)
  }

  /** Weekly buckets while the data spans at most five months; otherwise monthly buckets,
      of which there are then more than five. */
  function ChooseGranularity(reviews: seq<Review>, cal: Calendar): (g: Granularity)
    ensures g == Weekly <==> |Keys(reviews, cal.monthStart)| <= WeeklyMonthLimit
    ensures g == Monthly ==> |Keys(reviews, KeyOf(g, cal))| > WeeklyMonthLimit
  {
    if |Keys(reviews, cal.monthStart)| <= WeeklyMonthLimit then Weekly else Monthly
  }

  /** `time_var`: the week-start column for weekly buckets, the month-start column otherwise. */
  function KeyOf(g: Granularity, cal: Calendar): (key: string -> int)
    ensures g == Weekly ==> key == cal.weekStart
    ensures g == Monthly ==> key == cal.monthStart
  {
    if g == Weekly then cal.weekStart else cal.monthStart
  }

  /** `app_data[time_var == bucket]`: the reviews of one bucket, in order. */
  function Members(reviews: seq<Review>, key: string -> int, bucket: int): (m: seq<Review>)
    ensures |m| <= |reviews|
  {
    if reviews == [] then []
    else
      var rest := Members(reviews[1..], key, bucket);
      if key(reviews[0].updated) == bucket then [reviews[0]] + rest else rest
  }

  /** A review is selected exactly when it is in the frame and its key is the bucket. */
  lemma {:induction false} MembersIn(reviews: seq<Review>, key: string -> int, bucket: int)
    ensures forall x :: x in Members(reviews, key, bucket) <==> x in reviews && key(x.updated) == bucket
    decreases |reviews|
  {
    if reviews != [] {
      MembersIn(reviews[1..], key, bucket);
      assert forall x :: x in reviews <==> x == reviews[0] || x in reviews[1..];
    }
  }

  /** A bucket keeps every copy of a review whose key is the bucket, so a review repeated in
      the frame counts as often in the ratio. */
  lemma {:induction false} MembersMultiplicity(reviews: seq<Review>, key: string -> int, bucket: int, x: Review)
    ensures multiset(Members(reviews, key, bucket))[x] ==
      if key(x.updated) == bucket then multiset(reviews)[x] else 0
    decreases |reviews|
  {
    if reviews != [] {
      assert reviews == [reviews[0]] + reviews[1..];
      MembersMultiplicity(reviews[1..], key, bucket, x);
    }
  }

  /** Selecting a bucket works piece by piece, so its reviews keep their frame order. */
  lemma {:induction false} MembersAppend(a: seq<Review>, b: seq<Review>, key: string -> int, bucket: int)
    ensures Members(a + b, key, bucket) == Members(a, key, bucket) + Members(b, key, bucket)
    decreases |a|
  {
    if a == [] {
      assert a + b == b;
    } else {
      var x, r := a[0], a[1..];
      assert a == [x] + r && a + b == [x] + (r + b);
      var h := if key(x.updated) == bucket then [x] else [];
      var mr, mb := Members(r, key, bucket), Members(b, key, bucket);
      MembersCons(x, r + b, key, bucket);
      MembersCons(x, r, key, bucket);
      MembersAppend(r, b, key, bucket);
      assert Members(a + b, key, bucket) == h + (mr + mb) == (h + mr) + mb;
    }
  }

  /** Selecting from a frame that starts with `x` keeps `x` exactly when its key is the bucket. */
  lemma MembersCons(x: Review, r: seq<Review>, key: string -> int, bucket: int)
    ensures Members([x] + r, key, bucket) ==
      (if key(x.updated) == bucket then [x] else []) + Members(r, key, bucket)
  {
    assert ([x] + r)[0] == x && ([x] + r)[1..] == r;
  }

  /** A single review is selected exactly when its key is the bucket. */
  lemma MembersSingle(x: Review, key: string -> int, bucket: int)
    ensures Members([x], key, bucket) == if key(x.updated) == bucket then [x] else []
  {
    assert [x][1..] == [];
  }

  /** `int(rating)`: a score is already an integer; a rating text must be decimal. */
  function RatingValue(r: Rating): (v: Option<int>)
    ensures r.Score? ==> v == Some(r.stars)
    ensures r.RatingText? && r.text != [] && Decimal.AllDigits(r.text) ==>
      v == Some(Decimal.DigitsValue(r.text))
    ensures r.RatingText? && (r.text == [] || r.text == "-" || r.text == "+") ==> v.None?
  {
    match r
    case Score(n) => Some(n)
    case RatingText(t) => Decimal.ParseInt(t)
  }

  /** `df['rating'].astype(int)`: every rating as an integer, or the first text that is not one. */
  function Ratings(reviews: seq<Review>): (r: Result<seq<int>>)
    ensures r.Success? <==> forall i | 0 <= i < |reviews| :: RatingValue(reviews[i].rating).Some?
    ensures r.Success? ==>
      |r.value| == |reviews| &&
      forall i | 0 <= i < |reviews| :: r.value[i] == RatingValue(reviews[i].rating).value
    ensures r.Failure? ==>
      exists i | 0 <= i < |reviews| ::
        reviews[i].rating.RatingText? && RatingValue(reviews[i].rating).None? &&
        r.error == RatingNotInteger(reviews[i].rating.text)
  {
    if reviews == [] then Success([])
    else
      var head := RatingValue(reviews[0].rating);
      if head.None? then Failure(RatingNotInteger(reviews[0].rating.text))
      else
        var rest := Ratings(reviews[1..]);
        assert forall i | 1 <= i < |reviews| :: reviews[i] == reviews[1..][i - 1];
        if rest.Failure? then rest else Success([head.value] + rest.value)
  }

  /** The number of ratings equal to `a` or to `b`. */
  function CountEither(ratings: seq<int>, a: int, b: int): (c: nat)
    ensures c <= |ratings|
  {
    if ratings == [] then 0
    else (if ratings[0] == a || ratings[0] == b then 1 else 0) + CountEither(ratings[1..], a, b)
  }

  /** For two distinct values the count is the number of ratings equal to the first plus the
      number equal to the second: the two `len(df[df['rating'] == v])` terms added together. */
  lemma {:induction false} CountEitherValue(ratings: seq<int>, a: int, b: int)
    requires a != b
    ensures CountEither(ratings, a, b) == multiset(ratings)[a] + multiset(ratings)[b]
    decreases |ratings|
  {
    if ratings != [] {
      assert ratings == [ratings[0]] + ratings[1..];
      CountEitherValue(ratings[1..], a, b);
    }
  }

  /** Share of 4- and 5-star ratings; 0 for an empty bucket (the ZeroDivisionError branch). */
  function PositiveRatio(ratings: seq<int>): (r: real)
    ensures 0.0 <= r <= 1.0
    ensures ratings == [] ==> r == 0.0
    ensures ratings != [] ==> r * (|ratings| as real) == CountEither(ratings, 4, 5) as real
  {
    if |ratings| == 0 then 0.0 else Fraction(CountEither(ratings, 4, 5), |ratings|)
  }

  /** Share of 1- and 2-star ratings; 0 for an empty bucket. */
  function NegativeRatio(ratings: seq<int>): (r: real)
    ensures 0.0 <= r <= 1.0
    ensures ratings == [] ==> r == 0.0
    ensures ratings != [] ==> r * (|ratings| as real) == CountEither(ratings, 1, 2) as real
  {
    if |ratings| == 0 then 0.0 else Fraction(CountEither(ratings, 1, 2), |ratings|)
  }

  /** `count / size` in exact arithmetic, for a count that fits in a non-empty bucket. */
  function Fraction(count: nat, size: nat): (r: real)
    requires 0 < size && count <= size
    ensures 0.0 <= r <= 1.0 && r * (size as real) == count as real
  {
    count as real / size as real
  }

  /** No rating is both positive and negative, so the two counts fit in the bucket. */
  lemma {:induction false} CountsFit(ratings: seq<int>)
    ensures CountEither(ratings, 4, 5) + CountEither(ratings, 1, 2) <= |ratings|
  {
    if ratings != [] {
      CountsFit(ratings[1..]);
    }
  }

  /** Both ratios lie in [0, 1], their sum is at most 1, and both are 0 on an empty bucket. */
  lemma RatiosBounded(ratings: seq<int>)
    ensures 0.0 <= PositiveRatio(ratings) <= 1.0
    ensures 0.0 <= NegativeRatio(ratings) <= 1.0
    ensures PositiveRatio(ratings) + NegativeRatio(ratings) <= 1.0
    ensures ratings == [] ==> PositiveRatio(ratings) == 0.0 && NegativeRatio(ratings) == 0.0
  {
    if ratings != [] {
      CountsFit(ratings);
      Shares(CountEither(ratings, 4, 5) as real, CountEither(ratings, 1, 2) as real, |ratings| as real);
    }
  }

  lemma Shares(p: real, q: real, n: real)
    requires n > 0.0 && 0.0 <= p && 0.0 <= q && p + q <= n
    ensures 0.0 <= p / n && 0.0 <= q / n && p / n + q / n <= 1.0
  {
    assert p / n + q / n == (p + q) / n;
  }

  /** A bucket rated 5, 5, 4, 1, 1 is 60% positive and 40% negative. */
  lemma FiveReviewBucket()
    ensures PositiveRatio([5, 5, 4, 1, 1]) == 0.6
    ensures NegativeRatio([5, 5, 4, 1, 1]) == 0.4
  {
    var s := [5, 5, 4, 1, 1];
    assert CountEither(s[4..], 4, 5) == 0 && CountEither(s[4..], 1, 2) == 1;
    assert CountEither(s[3..], 4, 5) == 0 && CountEither(s[3..], 1, 2) == 2;
    assert CountEither(s[2..], 4, 5) == 1 && CountEither(s[2..], 1, 2) == 2;
    assert CountEither(s[1..], 4, 5) == 2 && CountEither(s[1..], 1, 2) == 2;
  }

  /** One row of `ratings_df`: the bucket, its '4/5' ratio and its '1/2' ratio. */
  datatype BucketRow = BucketRow(bucket: int, positive: real, negative: real)

  datatype Summary = Summary(granularity: Granularity, rows: seq<BucketRow>)

  function BucketsOf(rows: seq<BucketRow>): set<int>
  {
    set k | 0 <= k < |rows| :: rows[k].bucket
  }

  lemma BucketsOfAppend(rows: seq<BucketRow>, row: BucketRow)
    ensures BucketsOf(rows + [row]) == BucketsOf(rows) + {row.bucket}
  {
    var longer := rows + [row];
    forall x | x in BucketsOf(longer) ensures x in BucketsOf(rows) + {row.bucket} {
      var k :| 0 <= k < |longer| && longer[k].bucket == x;
      if k < |rows| {
        assert rows[k].bucket == x;
      }
    }
    forall x | x in BucketsOf(rows) ensures x in BucketsOf(longer) {
      var k :| 0 <= k < |rows| && rows[k].bucket == x;
      assert longer[k].bucket == x;
    }
    assert longer[|rows|].bucket == row.bucket;
  }

  predicate DistinctBuckets(rows: seq<BucketRow>)
  {
    forall i, j | 0 <= i < j < |rows| :: rows[i].bucket != rows[j].bucket
  }

  /** The row `visualise` computes for one bucket of the merged reviews. */
  predicate RowFor(reviews: seq<Review>, key: string -> int, row: BucketRow)
  {
    var ratings := Ratings(Members(reviews, key, row.bucket));
    ratings.Success? &&
    row.positive == PositiveRatio(ratings.value) &&
    row.negative == NegativeRatio(ratings.value)
  }

  /** If every bucket's ratings convert, every rating converts: each review lies in its bucket. */
  lemma BucketsCoverRatings(reviews: seq<Review>, key: string -> int)
    requires forall b | b in Keys(reviews, key) :: Ratings(Members(reviews, key, b)).Success?
    ensures Ratings(reviews).Success?
  {
    forall i | 0 <= i < |reviews| ensures RatingValue(reviews[i].rating).Some? {
      var b := key(reviews[i].updated);
      assert b in Keys(reviews, key);
      var m := Members(reviews, key, b);
      MembersIn(reviews, key, b);
      assert reviews[i] in m;
      var j :| 0 <= j < |m| && m[j] == reviews[i];
    }
  }

  /** A bucket whose ratings do not convert holds a review whose rating does not. */
  lemma BucketFailure(reviews: seq<Review>, key: string -> int, b: int)
    requires Ratings(Members(reviews, key, b)).Failure?
    ensures Ratings(reviews).Failure?
    ensures exists i | 0 <= i < |reviews| ::
      reviews[i].rating.RatingText? && RatingValue(reviews[i].rating).None? &&
      Ratings(Members(reviews, key, b)).error == RatingNotInteger(reviews[i].rating.text)
  {
    var m := Members(reviews, key, b);
    var j :| 0 <= j < |m| && m[j].rating.RatingText? && RatingValue(m[j].rating).None? &&
      Ratings(m).error == RatingNotInteger(m[j].rating.text);
    MembersIn(reviews, key, b);
    assert m[j] in reviews;
    var i :| 0 <= i < |reviews| && reviews[i] == m[j];
  }

  lemma PickableBucket(s: set<int>)
    requires s != {}
    ensures exists b :: b in s
  {
    assert (forall b :: b !in s) ==> s == {};
  }

  /** The `for month in settime` loop: one row per bucket of `settime`, each visited once in
      an unspecified order; the first bucket whose ratings do not convert stops the loop. */
  method BucketRows(appData: seq<Review>, key: string -> int) returns (r: Result<seq<BucketRow>>)
    ensures r.Failure? <==> Ratings(appData).Failure?
    ensures r.Failure? ==>
      exists i | 0 <= i < |appData| ::
        appData[i].rating.RatingText? && RatingValue(appData[i].rating).None? &&
        r.error == RatingNotInteger(appData[i].rating.text)
    ensures r.Success? ==>
      BucketsOf(r.value) == Keys(appData, key) &&
      DistinctBuckets(r.value) &&
      forall k | 0 <= k < |r.value| :: RowFor(appData, key, r.value[k])
  {
    var settime := Keys(appData, key);
    var rows: seq<BucketRow> := [];
    var rest := settime;
    while rest != {}
      invariant rest <= settime
      invariant BucketsOf(rows) == settime - rest
      invariant DistinctBuckets(rows)
      invariant forall k | 0 <= k < |rows| :: RowFor(appData, key, rows[k])
      invariant forall b | b in settime - rest :: Ratings(Members(appData, key, b)).Success?
      decreases rest
    {
      PickableBucket(rest);
      var b: int :| b in rest;
      var bucket := Members(appData, key, b);
      var ratings := Ratings(bucket);
      if ratings.Failure? {
        BucketFailure(appData, key, b);
        return Failure(ratings.error);
      }
      var row := BucketRow(b, PositiveRatio(ratings.value), NegativeRatio(ratings.value));
      BucketsOfAppend(rows, row);
      rows := rows + [row];
      rest := rest - {b};
    }
    BucketsCoverRatings(appData, key);
    return Success(rows);
  }

  /** No reviews, no buckets; some review, some bucket. */
  lemma KeysEmpty(reviews: seq<Review>, key: string -> int)
    ensures Keys(reviews, key) == {} <==> reviews == []
  {
    if reviews != [] {
      assert key(reviews[0].updated) in Keys(reviews, key);
    }
  }

  /** A bucket table covering the keys of a frame is empty exactly when the frame is. */
  lemma RowsEmpty(rows: seq<BucketRow>, reviews: seq<Review>, key: string -> int)
    requires BucketsOf(rows) == Keys(reviews, key)
    ensures rows == [] <==> reviews == []
  {
    KeysEmpty(reviews, key);
    if rows != [] {
      assert rows[0].bucket in BucketsOf(rows);
    }
  }

  /** `visualise` up to the chart: merge one or two frames, choose weekly buckets exactly when
      the data spans at most five distinct months, and compute one row for every distinct
      bucket present. Buckets are visited in set order, which is unspecified, so only the
      contents of the table are fixed. With no reviews at all the table stays empty and
      naming its columns fails. */
  method SentimentSummary(frames: seq<seq<Review>>, cal: Calendar) returns (r: Result<Summary>)
    ensures r.Failure? <==>
      MergeFrames(frames).Failure? || MergeFrames(frames).value == [] ||
      Ratings(MergeFrames(frames).value).Failure?
    ensures MergeFrames(frames).Failure? ==> r == Failure(MergeFrames(frames).error)
    ensures MergeFrames(frames).Success? && MergeFrames(frames).value == [] ==>
      r == Failure(EmptyRatingsTable)
    ensures r.Failure? && MergeFrames(frames).Success? && MergeFrames(frames).value != [] ==>
      var merged := MergeFrames(frames).value;
      exists i | 0 <= i < |merged| ::
        merged[i].rating.RatingText? && RatingValue(merged[i].rating).None? &&
        r.error == RatingNotInteger(merged[i].rating.text)
    ensures r.Success? ==>
      var merged := MergeFrames(frames).value;
      var key := KeyOf(r.value.granularity, cal);
      (r.value.granularity == Weekly <==> |Keys(merged, cal.monthStart)| <= WeeklyMonthLimit) &&
      r.value.rows != [] &&
      BucketsOf(r.value.rows) == Keys(merged, key) &&
      DistinctBuckets(r.value.rows) &&
      forall k | 0 <= k < |r.value.rows| :: RowFor(merged, key, r.value.rows[k])
  {
    var merge := MergeFrames(frames);
    if merge.Failure? {
      return Failure(merge.error);
    }
    var appData := merge.value;
    var granularity := ChooseGranularity(appData, cal);
    var key := KeyOf(granularity, cal);
    var rows := BucketRows(appData, key);
    if rows.Failure? {
      return Failure(rows.error);
    }
    RowsEmpty(rows.value, appData, key);
    if rows.value == [] {
      return Failure(EmptyRatingsTable);
    }
    return Success(Summary(granularity, rows.value));
  }
}
