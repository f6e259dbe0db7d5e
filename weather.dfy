/** The weather fetcher `get_weather_data` and the reply template of `handle_message`.
    The HTTP round trip is a parameter; the numeric fields are kept as the text
    the reply shows. */
module Weather {

  import opened Ascii
  import opened Optional

  /** The flat record built from the provider's JSON body. */
  datatype WeatherRecord = WeatherRecord(
    city: String, country: String, tempC: String, tempF: String,
    condition: String, windMph: String, windDir: String)

  /** What `get_weather_data` returns: the record, or a dictionary holding only "error". */
  datatype WeatherResult = Report(record: WeatherRecord) | Error(message: String)

  /** What the HTTP GET produced: the parsed record, or the text of the
      `requests.RequestException` it raised. */
  datatype Response = Fetched(record: WeatherRecord) | RequestFailed(exceptionText: String)

  const ErrorPrefix: String := "Failed to fetch weather data: "

  /** The error string built from an exception's text. */
  function ErrorMessage(exceptionText: String): (m: String)
    ensures |m| == |ErrorPrefix| + |exceptionText|
    ensures m[..|ErrorPrefix|] == ErrorPrefix
    ensures m[|ErrorPrefix|..] == exceptionText
  {
    ErrorPrefix + exceptionText
  }

  /** Recovers the exception text from an error string, when it has the error prefix. */
  function ExceptionText(m: String): (e: Option<String>)
    ensures e.Some? <==> |ErrorPrefix| <= |m| && m[..|ErrorPrefix|] == ErrorPrefix
    ensures e.Some? ==> ErrorMessage(e.value) == m
  {
    if |ErrorPrefix| <= |m| && m[..|ErrorPrefix|] == ErrorPrefix then
      Some(m[|ErrorPrefix|..])
    else
      None
  }

  /** The exception text can be read back from the error string. */
  lemma ExceptionTextOfErrorMessage(e: String)
    ensures ExceptionText(ErrorMessage(e)) == Some(e)
  {
  }

  /** Different exceptions give different error strings. */
  lemma ErrorMessageInjective(e1: String, e2: String)
    requires ErrorMessage(e1) == ErrorMessage(e2)
    ensures e1 == e2
  {
    ExceptionTextOfErrorMessage(e1);
    ExceptionTextOfErrorMessage(e2);
  }

  /** `get_weather_data(city)`, with the HTTP round trip given as `request`. */
  function GetWeatherData(city: String, request: String -> Response): (r: WeatherResult)
    ensures r.Error? <==> request(city).RequestFailed?
    ensures r.Report? ==> r.record == request(city).record
    ensures r.Error? ==> ExceptionText(r.message) == Some(request(city).exceptionText)
  {
    match request(city)
    case Fetched(rec) => Report(rec)
    case RequestFailed(e) =>
      ExceptionTextOfErrorMessage(e);
      Error(ErrorMessage(e))
  }

  /** Every error `get_weather_data` returns carries the error prefix. */
  lemma EveryErrorHasPrefix(city: String, request: String -> Response)
    ensures GetWeatherData(city, request).Error? ==>
      exists e :: GetWeatherData(city, request).message == ErrorPrefix + e
  {
    if GetWeatherData(city, request).Error? {
      var e := request(city).exceptionText;
      assert GetWeatherData(city, request).message == ErrorPrefix + e;
    }
  }

  const Lead: String := "It's currently "
  const AfterTempF: String := "°F ("
  const AfterTempC: String := "°C) in "
  const AfterCity: String := ", "
  const AfterCountry: String := " with "
  const AfterCondition: String := " skies. Winds are from the "
  const AfterWindDir: String := " at "
  const Tail: String := " mph."

  /** The pieces of the success reply in their fixed order, with a field's value in
      place of each field and the condition text lower-cased. */
  function Pieces(rec: WeatherRecord): (ps: seq<String>)
    ensures |ps| == 15
    ensures NoUpper(ps[9])
  {
    [Lead, rec.tempF, AfterTempF, rec.tempC, AfterTempC, rec.city, AfterCity, rec.country,
     AfterCountry, Lower(rec.condition), AfterCondition, rec.windDir, AfterWindDir,
     rec.windMph, Tail]
  }

  /** The success reply of `handle_message`: it starts with "It's currently ",
      ends with " mph." and is as long as its pieces together. */
  function FormatReport(rec: WeatherRecord): (r: String)
    ensures |Lead| <= |r| && r[..|Lead|] == Lead
    ensures |Tail| <= |r| && r[|r| - |Tail|..] == Tail
    ensures |r| == Offset(Pieces(rec), |Pieces(rec)|)
  {
    var ps := Pieces(rec);
    ConcatAt(ps, 0);
    ConcatAt(ps, 14);
    ConcatLength(ps);
    Concat(ps)
  }

  function Concat(ps: seq<String>): String
  {
    if ps == [] then [] else ps[0] + Concat(ps[1..])
  }

  /** Where piece `k` of `ps` starts in `Concat(ps)`. */
  function Offset(ps: seq<String>, k: nat): nat
    requires k <= |ps|
  {
    if k == 0 then 0 else Offset(ps, k - 1) + |ps[k - 1]|
  }

  /** Every piece sits unchanged at its offset in the concatenation. */
  lemma {:induction false} ConcatAt(ps: seq<String>, k: nat)
    requires k < |ps|
    ensures Offset(ps, k) + |ps[k]| <= |Concat(ps)|
    ensures Concat(ps)[Offset(ps, k)..Offset(ps, k) + |ps[k]|] == ps[k]
  {
    if k == 0 {
      assert Concat(ps) == ps[0] + Concat(ps[1..]);
    } else {
      assert ps[1..][k - 1] == ps[k];
      ConcatAt(ps[1..], k - 1);
      OffsetTail(ps, k);
      var c := Concat(ps[1..]);
      assert Concat(ps) == ps[0] + c;
      var o := Offset(ps[1..], k - 1);
      assert (ps[0] + c)[|ps[0]| + o..|ps[0]| + o + |ps[k]|] == c[o..o + |ps[k]|];
    }
  }

  lemma {:induction false} OffsetTail(ps: seq<String>, k: nat)
    requires 0 < k <= |ps|
    ensures Offset(ps, k) == |ps[0]| + Offset(ps[1..], k - 1)
  {
    if k > 1 {
      OffsetTail(ps, k - 1);
    }
  }

  lemma {:induction false} ConcatLength(ps: seq<String>)
    ensures |Concat(ps)| == Offset(ps, |ps|)
  {
    if ps != [] {
      ConcatLength(ps[1..]);
      OffsetTail(ps, |ps|);
    }
  }

  /** The reply is the template's pieces in their fixed order: the text before
      the temperature, the record's fields unchanged (the condition lower-cased),
      and " mph." at the end, with nothing else in between. */
  lemma ReportIsTemplate(rec: WeatherRecord)
    ensures forall k :: 0 <= k < |Pieces(rec)| ==>
      Offset(Pieces(rec), k) + |Pieces(rec)[k]| <= |FormatReport(rec)| &&
      FormatReport(rec)[Offset(Pieces(rec), k)..Offset(Pieces(rec), k) + |Pieces(rec)[k]|]
        == Pieces(rec)[k]
    ensures |FormatReport(rec)| == Offset(Pieces(rec), |Pieces(rec)|)
  {
    ConcatAll(Pieces(rec));
  }

  /** Every piece sits unchanged at its offset, and nothing follows the last one. */
  lemma ConcatAll(ps: seq<String>)
    ensures forall k :: 0 <= k < |ps| ==>
      Offset(ps, k) + |ps[k]| <= |Concat(ps)| &&
      Concat(ps)[Offset(ps, k)..Offset(ps, k) + |ps[k]|] == ps[k]
    ensures |Concat(ps)| == Offset(ps, |ps|)
  {
    forall k | 0 <= k < |ps|
      ensures Offset(ps, k) + |ps[k]| <= |Concat(ps)|
      ensures Concat(ps)[Offset(ps, k)..Offset(ps, k) + |ps[k]|] == ps[k]
    {
      ConcatAt(ps, k);
    }
    ConcatLength(ps);
  }

  /** The condition's letter case from the provider does not show in the reply. */
  lemma ReportIgnoresConditionCase(rec: WeatherRecord, condition: String)
    requires Lower(condition) == Lower(rec.condition)
    ensures FormatReport(rec.(condition := condition)) == FormatReport(rec)
  {
  }

  /** The condition text appears in the reply fully lower-cased. */
  lemma ReportConditionLowered(rec: WeatherRecord)
    ensures FormatReport(rec.(condition := Lower(rec.condition))) == FormatReport(rec)
  {
    LowerIdempotent(rec.condition);
  }
}
