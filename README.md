# Mobile app reviews — a verified model

`mobile_app_reviews.py` defines one class, `app_reviews`, which gathers app-store reviews
for an app name. It does five things:

- it resolves the name to a Google Play package id (`android_app_id`) and to an App Store
  candidate table and id (`ios_app_id`);
- it lists the ids of similar Android apps (`android_similar_apps`);
- it fetches reviews from the Google Play scraper (`get_android_reviews`) and from the paged
  iTunes review feed (`get_ios_reviews`), each as a frame with the columns updated, id,
  title, content, rating, version, author, OS and country;
- it writes one or two such frames as a JSON object keyed by row position (`to_json`);
- it summarises one or two frames as the share of 4/5-star and of 1/2-star reviews per week
  or per month (`visualise`).

The model keeps what these methods compute and leaves the fetching and drawing to the caller.
A fetched page is given as what the code reads from it: for the search and details pages,
the `href`s of the anchors in each matching `<div>`; for the iOS feed, one entry list per
page number. A scraper run is given as its outcome. How a timestamp falls into a week and a
month is given as a `Calendar`. A pandas frame is the sequence of its rows.

Modules, one file each:

- `Outcomes`: `Option`, `Result` and the exceptions the code raises, one constructor per
  kind of failure.
- `Text`: the Python string operations the code uses. These are `pat in s`,
  `s.replace(pat, '')`, `s.split(sep)[0]` and `s.split('/')`.
- `Decimal`: `str(n)` for the JSON keys and `int(text)` for `astype(int)`.
- `Records`: the unified review row, the two record builders, the two fetch loops, and the
  merge of one or two frames.
- `Links`: `android_app_id`, `android_similar_apps` and `ios_app_id`.
- `Sentiment`: `visualise`, up to the point where it builds the ratings table.
- `Export`: `to_json`.

Operations that loop in the source are methods with loop invariants:

- the link-collecting loops;
- the similar-apps and bucket loops, which iterate over a Python set;
- the record-building loops;
- the page loop of `get_ios_reviews`.

Each method is proved against a function that specifies it. The string operations, the
granularity choice, the ratio formulas and `to_json` are functions.

Python leaves the order of set iteration unspecified. The similar-apps loop and the bucket
loop therefore pick any remaining element. Their contracts fix the contents of the result:
each element is visited once, and nothing else is. They do not fix the order.

`get_ios_reviews` is modelled as written: when all twenty feed pages have entries, the loop
runs off the end and the method returns `None`. `ios_app_id` deletes every `"id"` in a
cleaned link, not only the one before the digits. `Links.IosStoreLinkCleaned` therefore
requires a slug without `"id"`.

## Model

| member | source | states |
|---|---|---|
| Text.Contains | mobile_app_reviews.py:55 | `pat in s` holds when `pat` occurs at some index: the empty pattern is in every text, and no text holds a longer pattern. |
| Text.DeleteAll | mobile_app_reviews.py:33-121 | `replace(pat, '')` (lines 33, 56, 120 and 121) never lengthens the text. A text without `pat` is kept whole. A text with `pat` loses at least `|pat|` characters. |
| Text.DeleteAllKeepsHead | mobile_app_reviews.py:121 | If no occurrence of `pat` starts inside a prefix, deletion keeps that prefix unchanged in front of the deleted rest. |
| Text.Before | mobile_app_reviews.py:155 | `split(sep)[0]` is a prefix of the text. No `sep` starts inside it. It is either the whole text or is followed by `sep`. |
| Text.BeforeGlued | mobile_app_reviews.py:155 | For `name + sep + rest`, where `sep` does not start inside `name`, `split(sep)[0]` is exactly `name`. |
| Text.Split | mobile_app_reviews.py:124 | `split('/')` gives at least one piece. No piece holds '/'. Joining the pieces with '/' gives back the text. |
| Text.SplitJoin | mobile_app_reviews.py:124 | Splitting a '/'-join of pieces without '/' gives back exactly those pieces. |
| Decimal.ShowNat | mobile_app_reviews.py:174 | `str(i)` is a non-empty run of decimal digits with no leading zero. |
| Decimal.ShowNatValue | mobile_app_reviews.py:174 | The digits of `str(n)` read back as the value n. |
| Decimal.ParseInt | mobile_app_reviews.py:211 | `int(text)` accepts exactly an optional sign followed by at least one digit, and gives a negative value only after '-'. |
| Decimal.ParseShowNat | mobile_app_reviews.py:211 | `int(str(n)) == n`, and `int('-' + str(n)) == -n`. |
| Decimal.ShowNatInjective | mobile_app_reviews.py:174 | Distinct row positions have distinct decimal keys. |
| Records.IosRecord | mobile_app_reviews.py:148-157 | An iOS row copies updated, id, title, content, rating text and version from the entry. It sets OS to iOS and country to the requested one. Its author is the entry's author text cut before the first "https:". |
| Records.IosAuthorDropsUri | mobile_app_reviews.py:155 | An author text of the form `name + "https:" + uri`, where `name` has no ':', yields exactly `name`. |
| Records.IosAuthorWithoutUri | mobile_app_reviews.py:155 | An author text without "https:" is kept whole. |
| Records.BuildIosRecords | mobile_app_reviews.py:145-158 | One row per feed entry, in entry order, each the entry's iOS record. |
| Records.GetIosReviews | mobile_app_reviews.py:131-164 | Pages 1, 2, … are requested in order, at most 20 of them. Every page before the last one requested has entries. The result is present exactly when the last page requested is empty. It is absent only after 20 non-empty pages. When present, it holds the records of all earlier pages' entries, page after page. |
| Records.AndroidRecord | mobile_app_reviews.py:86-94 | An Android row renames at, reviewId, score, reviewCreatedVersion and userName to updated, id, rating, version and author, and copies content. It has no title, OS Android, and the requested country. |
| Records.AndroidRecordLossless | mobile_app_reviews.py:86-94 | The scraper record can be read back from its row. |
| Records.BuildAndroidRecords | mobile_app_reviews.py:83-95 | One row per scraped record, in order, each its Android record. |
| Records.GetAndroidReviews | mobile_app_reviews.py:64-101 | It fails exactly when either scraper call raised. The error is the ValueError naming the app id and the review count. Otherwise the rows are the records of the second call's result only. |
| Records.MergeFrames | mobile_app_reviews.py:170-173 | Two frames are appended; one frame is taken as it is. Any other count is the unbound-frame error carrying that count. |
| Links.Slice | mobile_app_reviews.py:30 | `a_tag[:n]` is a prefix of the anchors of length min(n, count); with no limit it is all of them. |
| Links.Harvest | mobile_app_reviews.py:28-117 | A link is collected exactly when it is among the sliced anchors of some div (the loops at lines 28-31, 49-52 and 114-117). |
| Links.CollectLinks | mobile_app_reviews.py:25-117 | The nested link loops collect each div's links, sliced to the per-div limit, in document order: one anchor per div at lines 25-31, every anchor at lines 46-52, ten per div at lines 111-117. |
| Links.HarvestEmpty | mobile_app_reviews.py:28-34 | With one anchor per div, no link is collected exactly when every div is empty. |
| Links.HarvestFirstAnchor | mobile_app_reviews.py:28-34 | With one anchor per div, the first link collected is the first anchor of the first non-empty div. |
| Links.AndroidAppId | mobile_app_reviews.py:19-36 | It fails with the IndexError exactly when every result div is empty. Otherwise the id is the first anchor of the first non-empty div, with the details prefix deleted. |
| Links.AndroidIdOfDetailsLink | mobile_app_reviews.py:33 | A details link whose package name has no '/' yields exactly that package name. |
| Links.SimilarApps | mobile_app_reviews.py:40-60 | Each distinct collected link that contains the details prefix is visited once, and no other link is. The ids are those links with the prefix deleted, in visiting order. No matching link is the column-naming error. |
| Links.WithoutPlaceholders | mobile_app_reviews.py:119 | Removing '#' keeps every other link as many times as it occurred, and leaves no '#'. A list without '#' is kept as it is. |
| Links.WithoutPlaceholdersAppend | mobile_app_reviews.py:119 | Removing '#' works piece by piece, so the kept links stay in source order. |
| Links.WithoutPlaceholdersFirst | mobile_app_reviews.py:119 | The first kept link is the first link that is not '#'. |
| Links.CleanIosLink | mobile_app_reviews.py:120-121 | Cleaning never lengthens a link, and a link with neither the store prefix nor "id" is kept whole. |
| Links.IosFirstCleanedLink | mobile_app_reviews.py:116-121 | The first cleaned link comes from the first collected link that is not '#', in document order. |
| Links.Width | mobile_app_reviews.py:124 | The column count of `str.split('/', expand=True)` is the largest piece count of any link. |
| Links.CandidateOf | mobile_app_reviews.py:124 | A link with at most one '/' becomes (app, id) with no '/' in either. The link is `app + '/' + id`, or just `app` with a missing id. |
| Links.CandidateTable | mobile_app_reviews.py:123-127 | No links is the KeyError. A split width other than 2 is the ValueError carrying that width. Otherwise there is one candidate row per link, each rebuilding its link. |
| Links.IosAppId | mobile_app_reviews.py:105-127 | It returns the candidate table of the cleaned links. The id returned is the first row's id, possibly missing. That first row rebuilds the cleaned form of the first collected link that is not '#'. Any table error is propagated. |
| Links.IosStoreLinkCleaned | mobile_app_reviews.py:119-121 | A store link `…/gb/app/<slug>/id<digits>` cleans to `<slug>/<digits>` when the slug has no '/' and no "id". |
| Links.IosStoreLinkCandidate | mobile_app_reviews.py:124 | `<slug>/<digits>` splits into the candidate row (slug, digits). |
| Sentiment.Keys | mobile_app_reviews.py:195-196 | A key is in the set exactly when some review's timestamp falls under it. |
| Sentiment.ChooseGranularity | mobile_app_reviews.py:198-205 | Buckets are weekly exactly when there are at most `WeeklyMonthLimit` (5) distinct month keys; monthly buckets are then more than five. |
| Sentiment.KeyOf | mobile_app_reviews.py:199-203 | `time_var` is the week-start key for weekly buckets and the month-start key for monthly ones. |
| Sentiment.Members | mobile_app_reviews.py:210 | The selection of one bucket is no longer than the frame. |
| Sentiment.MembersIn | mobile_app_reviews.py:210 | A review is selected exactly when it is in the frame and its key is the bucket. |
| Sentiment.MembersAppend | mobile_app_reviews.py:210 | Selecting a bucket works piece by piece, so the selected reviews keep their frame order. |
| Sentiment.MembersSingle | mobile_app_reviews.py:210 | A single review is selected exactly when its key is the bucket. |
| Sentiment.MembersMultiplicity | mobile_app_reviews.py:210 | A selected review occurs as often as in the frame, so a repeated review counts repeatedly in the ratio. |
| Sentiment.RatingValue | mobile_app_reviews.py:211 | `int()` of one rating: a score is kept, a text of decimal digits gives its value, an empty or bare-sign text is refused. |
| Sentiment.Ratings | mobile_app_reviews.py:211 | `astype(int)` succeeds exactly when every rating converts, and then gives each converted value in order. Otherwise the error names a rating text that does not convert. |
| Sentiment.CountEither | mobile_app_reviews.py:213 | The count of ratings equal to either of two values never exceeds the bucket size. |
| Sentiment.CountEitherValue | mobile_app_reviews.py:213 | For two distinct values the count is the number of ratings equal to the first plus the number equal to the second, the two `len(...)` terms the source adds. |
| Sentiment.PositiveRatio | mobile_app_reviews.py:212-215 | The 4/5 share lies in [0, 1]; times the bucket size it is the 4/5 count; an empty bucket gives 0. |
| Sentiment.NegativeRatio | mobile_app_reviews.py:216-219 | The 1/2 share lies in [0, 1]; times the bucket size it is the 1/2 count; an empty bucket gives 0. |
| Sentiment.CountsFit | mobile_app_reviews.py:213-217 | The 4/5 count and the 1/2 count together never exceed the bucket size. |
| Sentiment.RatiosBounded | mobile_app_reviews.py:212-219 | Both shares lie in [0, 1] and their sum is at most 1. An empty bucket gives 0 for both, as in the ZeroDivisionError branch. |
| Sentiment.FiveReviewBucket | mobile_app_reviews.py:212-219 | A bucket rated 5, 5, 4, 1, 1 is 0.6 positive and 0.4 negative. |
| Sentiment.BucketsCoverRatings | mobile_app_reviews.py:209-211 | If every bucket's ratings convert, every rating of the frame converts. |
| Sentiment.BucketFailure | mobile_app_reviews.py:209-211 | A bucket whose ratings fail to convert names a bad rating text of the frame. |
| Sentiment.BucketRows | mobile_app_reviews.py:207-221 | It fails exactly when some rating does not convert, naming such a text. Otherwise there is one row per distinct bucket present, no bucket twice, each row holding its bucket's two shares. |
| Sentiment.KeysEmpty | mobile_app_reviews.py:195-196 | There are no buckets exactly when there are no reviews. |
| Sentiment.SentimentSummary | mobile_app_reviews.py:180-223 | Frame-count errors are propagated. With no reviews, naming the columns of the empty table fails. A bad rating text fails. Otherwise buckets are weekly exactly when the data spans at most five months, and the table holds one row for every bucket present, with its shares. |
| Export.RecordOf | mobile_app_reviews.py:174 | A record has exactly the nine columns, `id` included. |
| Export.RecordRoundTrip | mobile_app_reviews.py:174-175 | Reading a record back gives the row: no field is lost or changed. |
| Export.PositionKeysAre | mobile_app_reviews.py:174 | `str(i)` is a key of an n-row index exactly when i < n, and there are n keys. |
| Export.Positional | mobile_app_reviews.py:174 | After `reset_index`, row i sits under the key `str(i)`, there is no other key, and there are as many keys as rows. |
| Export.ToJson | mobile_app_reviews.py:168-177 | Frame-count errors are propagated. Otherwise the object has exactly the keys "0" … `str(n-1)`, and key `str(i)` holds the record of merged row i. |
| Export.ToJsonReadsBack | mobile_app_reviews.py:174-177 | The record under `str(i)` reads back as merged row i. |

## Left out

- HTTP requests, HTML/XML parsing and the URLs built from `app_name` and `app_id`: I/O. Pages are given as the anchor `href`s per matching div, or as the entry list of each feed page.
- The Google Play scraper's internals and its arguments (`lang`, `sort`, `count`, the continuation token): this is a foreign call. Only its outcome is modelled. That covers which call raised and which records each returned. Whether fewer than `review_count` reviews exist is the scraper's decision.
- A missing `href` attribute, which raises KeyError in the link loops: the parsed anchors are given as their `href`s.
- Date parsing (`pd.to_datetime`, `.dt.week`, the `%Y%W%w` week start, `month-year`): the week and month keys of a timestamp come from a given `Calendar`.
- Sentiment.SentimentSummary: a frame is its rows, so the column-less empty frame `get_ios_reviews` returns when page 1 is empty is the same as an empty frame with columns. On a list of only such frames the source raises KeyError 'updated' when it parses the dates, and the model gives the empty-table error instead. A column-less frame appended to another is dropped, so these inputs are the only ones that differ.
- Sentiment.SentimentSummary: the six columns `month`, `week`, `year`, `dates`, `week_year` and `month_year` that lines 187-193 add are not modelled. When one frame is passed they land in the caller's frame in place; with two frames `append` builds a new frame first.
- Floating point: the shares are exact `real` quotients.
- The plotly figure and its display. In the plot, the x values are sorted but the y values are not, so points can be mismatched. The model stops at the ratings table.
- The order of the ratings-table rows and of the similar-app ids: both follow Python set order, which is unspecified. The contracts fix the contents instead.
- `get_app_reviews`, the driver that calls the others and prints: orchestration and console output.
- The `app_reviews` object: its one field is only used in URLs. Default parameter values (200 reviews, country 'gb'): callers pass every argument.
- Decimal.ParseInt: `int()` also accepts surrounding whitespace, underscores between digits and non-ASCII digits. The model refuses these texts.
- Export.ToJson: the Android `at` value is a datetime, which pandas writes as epoch milliseconds. The model keeps it as text. The textual form of JSON (`to_json` then `json.loads`) is not modelled, only the object it yields.
- Records.GetIosReviews: the pandas index set by `set_index('id')` is not a separate structure. Every row keeps its `id` field.
