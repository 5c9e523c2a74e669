/** Optional values, results, and the exceptions the review pipeline can raise. */
module Outcomes {

  datatype Option<+T> = None | Some(value: T)

  /** The Python exceptions the modelled code raises on the inputs the model represents, one
      constructor per kind of failure. */
  datatype Error =
    /** `get_android_reviews`: any failure of either scraper call is re-raised as this ValueError. */
    | TooFewReviews(appId: string, reviewCount: int)
    /** `android_app_id`: `links[0]` on an empty list (IndexError). */
    | NoSearchResult
    /** `android_similar_apps`: no matching link leaves a frame with no column, and naming
        its one column fails (ValueError: length mismatch). */
    | NoSimilarApps
    /** `ios_app_id`: `app_id_df[0]` on a frame built from no links (KeyError). */
    | NoCandidateColumn
    /** `ios_app_id`: splitting on '/' gave `width` columns, but two are assigned (ValueError). */
    | CandidateWidthMismatch(width: nat)
    /** `to_json` / `visualise`: a list of frames of any length other than 1 or 2 leaves the
        merged frame unbound (UnboundLocalError). */
    | UnsupportedFrameCount(count: nat)
    /** `visualise`: `astype(int)` met a rating text that is not an integer (ValueError). */
    | RatingNotInteger(text: string)
    /** `visualise`: with no reviews there are no buckets, and naming the three columns of the
        empty ratings table fails (ValueError: length mismatch). */
    | EmptyRatingsTable

  datatype Result<+T> = Success(value: T) | Failure(error: Error)
}
