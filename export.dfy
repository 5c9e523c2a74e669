/** `to_json`: the merged frame, re-indexed 0..n-1, written with `orient='index'` as an object
    from the positional key "0", "1", ... to the record of that row, `id` included. */
module Export {
  import opened Outcomes
  import opened Records
  import Decimal

  /** The JSON values a record field can take. */
  datatype Json = JString(s: string) | JInt(n: int) | JNull

  type JsonObject = map<string, Json>

  /** The column names of an exported record: the unified columns, with `id` moved back in. */
  const RecordKeys: set<string> :=
    {"updated", "id", "title", "content", "rating", "version", "author", "OS", "country"}

  function OsName(p: Platform): string
  {
    match p
    case Android => "Android"
    case IOS => "iOS"
  }

  function OptionalText(o: Option<string>): Json
  {
    match o
    case None => JNull
    case Some(t) => JString(t)
  }

  function RatingJson(r: Rating): Json
  {
    match r
    case Score(n) => JInt(n)
    case RatingText(t) => JString(t)
  }

  /** The exported record of one row. */
  function RecordOf(r: Review): (obj: JsonObject)
    ensures obj.Keys == RecordKeys
  {
    map[
      "updated" := JString(r.updated),
      "id" := JString(r.id),
      "title" := OptionalText(r.title),
      "content" := JString(r.content),
      "rating" := RatingJson(r.rating),
      "version" := OptionalText(r.version),
      "author" := JString(r.author),
      "OS" := JString(OsName(r.os)),
      "country" := JString(r.country)]
  }

  function TextField(obj: JsonObject, k: string): Option<string>
  {
    if k in obj && obj[k].JString? then Some(obj[k].s) else None
  }

  function OptionalField(obj: JsonObject, k: string): Option<Option<string>>
  {
    if k !in obj then None
    else match obj[k]
      case JNull => Some(None)
      case JString(t) => Some(Some(t))
      case JInt(_) => None
  }

  function RatingField(obj: JsonObject): Option<Rating>
  {
    if "rating" !in obj then None
    else match obj["rating"]
      case JInt(n) => Some(Score(n))
      case JString(t) => Some(RatingText(t))
      case JNull => None
  }

  function PlatformNamed(name: string): Option<Platform>
  {
    if name == "iOS" then Some(IOS) else if name == "Android" then Some(Android) else None
  }

  /** Reading a record back: the row it was written from, or None for a malformed record. */
  function ReviewOf(obj: JsonObject): Option<Review>
  {
    var updated := TextField(obj, "updated");
    var id := TextField(obj, "id");
    var title := OptionalField(obj, "title");
    var content := TextField(obj, "content");
    var rating := RatingField(obj);
    var version := OptionalField(obj, "version");
    var author := TextField(obj, "author");
    var os := TextField(obj, "OS");
    var country := TextField(obj, "country");
    if updated.None? || id.None? || title.None? || content.None? || rating.None? ||
       version.None? || author.None? || os.None? || country.None? then None
    else match PlatformNamed(os.value)
      case None => None
      case Some(p) =>
        Some(Review(updated.value, id.value, title.value, content.value, rating.value,
                    version.value, author.value, p, country.value))
  }

  /** Every field of a row appears unchanged in its record under its column name. */
  lemma RecordRoundTrip(r: Review)
    ensures ReviewOf(RecordOf(r)) == Some(r)
  {
  }

  /** The keys "0", "1", ..., `str(n-1)` of a positional index of n rows. */
  function PositionKeys(n: nat): set<string>
  {
    if n == 0 then {} else PositionKeys(n - 1) + {Decimal.ShowNat(n - 1)}
  }

  /** `str(i)` is a key of an index of n rows exactly when i < n, and there are n keys. */
  lemma {:induction false} PositionKeysAre(n: nat)
    ensures forall i: nat :: Decimal.ShowNat(i) in PositionKeys(n) <==> i < n
    ensures |PositionKeys(n)| == n
  {
    if n > 0 {
      PositionKeysAre(n - 1);
      forall i: nat | Decimal.ShowNat(i) == Decimal.ShowNat(n - 1) ensures i == n - 1 {
        Decimal.ShowNatInjective(i, n - 1);
      }
    }
  }

  /** Every key of an index of n rows is the decimal text of a row number below n. */
  lemma {:induction false} PositionKeyIndex(n: nat, k: string)
    requires k in PositionKeys(n)
    ensures Decimal.AllDigits(k) && Decimal.DigitsValue(k) < n
    ensures Decimal.ShowNat(Decimal.DigitsValue(k)) == k
  {
    if k == Decimal.ShowNat(n - 1) {
      Decimal.ShowNatValue(n - 1);
    } else {
      PositionKeyIndex(n - 1, k);
    }
  }

  /** The row an index key names. */
  function RowAt<T>(rows: seq<T>, k: string): T
    requires k in PositionKeys(|rows|)
  {
    PositionKeyIndex(|rows|, k);
    rows[Decimal.DigitsValue(k)]
  }

  /** The positional index of a frame after `reset_index`: row i under the key `str(i)`. */
  function Positional<T>(rows: seq<T>): (m: map<string, T>)
    ensures m.Keys == PositionKeys(|rows|)
    ensures forall i | 0 <= i < |rows| :: Decimal.ShowNat(i) in m && m[Decimal.ShowNat(i)] == rows[i]
    ensures |m| == |rows|
  {
    PositionKeysAre(|rows|);
    var m := map k | k in PositionKeys(|rows|) :: RowAt(rows, k);
    assert forall i | 0 <= i < |rows| :: m[Decimal.ShowNat(i)] == rows[i] by {
      forall i | 0 <= i < |rows| ensures m[Decimal.ShowNat(i)] == rows[i] {
        Decimal.ShowNatValue(i);
      }
    }
    assert m.Keys == PositionKeys(|rows|);
    m
  }

  /** Every row of a positional index written as its record. */
  function RecordsOf(byPosition: map<string, Review>): (m: map<string, JsonObject>)
    ensures m.Keys == byPosition.Keys
    ensures forall k | k in byPosition :: m[k] == RecordOf(byPosition[k])
  {
    map k | k in byPosition :: RecordOf(byPosition[k])
  }

  /** `to_json`: one or two frames merged, then exported by position: the record of row i of
      the merged frame under the key `str(i)`, and no other key. */
  function ToJson(frames: seq<seq<Review>>): (r: Result<map<string, JsonObject>>)
    ensures r.Success? <==> |frames| == 1 || |frames| == 2
    ensures r.Failure? ==> r.error == UnsupportedFrameCount(|frames|)
    ensures r.Success? ==>
      var merged := MergeFrames(frames).value;
      r.value.Keys == PositionKeys(|merged|) &&
      forall i | 0 <= i < |merged| ::
        Decimal.ShowNat(i) in r.value && r.value[Decimal.ShowNat(i)] == RecordOf(merged[i])
  {
    match MergeFrames(frames)
    case Failure(e) => Failure(e)
    case Success(merged) => Success(RecordsOf(Positional(merged)))
  }

  /** The record exported under key `str(i)` reads back as row i of the merged frame, with
      every field unchanged. */
  lemma ToJsonReadsBack(frames: seq<seq<Review>>, i: nat)
    requires |frames| == 1 || |frames| == 2
    requires i < |MergeFrames(frames).value|
    ensures Decimal.ShowNat(i) in ToJson(frames).value
    ensures ReviewOf(ToJson(frames).value[Decimal.ShowNat(i)]) == Some(MergeFrames(frames).value[i])
  {
    PositionKeysAre(|MergeFrames(frames).value|);
    RecordRoundTrip(MergeFrames(frames).value[i]);
  }
}
