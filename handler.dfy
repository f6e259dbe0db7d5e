/** `handle_message`: extract a city from the chat message, ask for one if there is
    none, otherwise fetch the weather and reply with the error text or the report. */
module Handler {

  import opened Ascii
  import opened Optional
  import opened CityExtractor
  import opened Weather

  const NoCityPrompt: String := "Please specify a city, e.g., 'weather in London'."

  /** `message.content.lower().split()`: the lower-cased message is these tokens set
      among white-space gaps; the tokens are non-empty, free of white space and of
      upper-case letters. */
  function Words(content: String): (words: seq<String>)
    ensures AllWords(words)
    ensures forall k :: 0 <= k < |words| ==> NoUpper(words[k])
    ensures Separators(Gaps(Lower(content)), |words|)
    ensures Interleave(Gaps(Lower(content)), words) == Lower(content)
  {
    var s := Lower(content);
    SplitNoUpper(s);
    Split(s)
  }

  /** What handling one message produces: the reply sent, and the cities the
      fetcher was called with, in order. */
  datatype Turn = Turn(reply: String, queried: seq<String>)

  /** Python's `not city`: no city, or the empty string. */
  predicate Missing(city: Option<String>)
    ensures Missing(city) <==> city == None || city == Some([])
  {
    city.None? || city.value == []
  }

  /** The dispatch after extraction: the prompt and no fetch when the city is
      missing; otherwise one fetch with the city, whose error text is relayed as
      it is or whose record is rendered as the report. */
  function Respond(city: Option<String>, request: String -> Response): (t: Turn)
    ensures t.queried == [] <==> Missing(city)
    ensures Missing(city) ==> t.reply == NoCityPrompt
    ensures !Missing(city) ==> t.queried == [city.value]
    ensures !Missing(city) && request(city.value).RequestFailed? ==>
      t.reply == ErrorPrefix + request(city.value).exceptionText
    ensures !Missing(city) && request(city.value).Fetched? ==>
      t.reply == FormatReport(request(city.value).record)
  {
    if Missing(city) then Turn(NoCityPrompt, [])
    else
      match GetWeatherData(city.value, request)
      case Error(m) => Turn(m, [city.value])
      case Report(rec) => Turn(FormatReport(rec), [city.value])
  }

  /** The reference definition of the whole handler: the fetcher is called, once
      and with the extracted city, exactly when some marker is followed by a token. */
  function HandleSpec(content: String, request: String -> Response): (t: Turn)
    ensures t.queried == [] <==> NoQualifier(Words(content))
    ensures t.queried == [] ==> t.reply == NoCityPrompt
    ensures t.queried != [] ==> t.queried == [ExtractSpec(Words(content)).value]
  {
    FoundCityNonEmpty(Words(content));
    Respond(ExtractSpec(Words(content)), request)
  }

  /** `handle_message`, with the HTTP round trip of the fetcher given as `request`;
      `queried` records the cities the fetcher was called with. */
  method HandleMessage(content: String, request: String -> Response)
    returns (reply: String, queried: seq<String>)
    ensures Turn(reply, queried) == HandleSpec(content, request)
    ensures queried == [] <==> NoQualifier(Words(content))
    ensures queried == [] ==> reply == NoCityPrompt
    ensures queried != [] ==> queried == [ExtractSpec(Words(content)).value]
  {
    var words := Words(content);
    var city := ExtractCity(words);
    FoundCityNonEmpty(words);
    if city.None? || city.value == [] {
      reply, queried := NoCityPrompt, [];
      return;
    }
    queried := [city.value];
    var weatherData := GetWeatherData(city.value, request);
    if weatherData.Error? {
      reply := weatherData.message;
      return;
    }
    reply := FormatReport(weatherData.record);
  }

  /** The `if not city` guard fires exactly when no city was found: a found city is never empty. */
  lemma {:induction false} GuardOnlyOnNoCity(content: String)
    ensures Missing(ExtractSpec(Words(content))) <==> NoQualifier(Words(content))
  {
    FoundCityNonEmpty(Words(content));
  }

  /** With no marker followed by a token, the reply is the fixed prompt and the
      fetcher is never called; otherwise the fetcher is called once, with the city. */
  lemma NoCityMeansPrompt(content: String, request: String -> Response)
    ensures NoQualifier(Words(content)) <==> HandleSpec(content, request).queried == []
    ensures NoQualifier(Words(content)) ==> HandleSpec(content, request).reply == NoCityPrompt
    ensures !NoQualifier(Words(content)) ==>
      HandleSpec(content, request).queried == [ExtractSpec(Words(content)).value]
  {
    GuardOnlyOnNoCity(content);
  }

  /** A failed request is relayed as "Failed to fetch weather data: " and the exception text. */
  lemma ErrorRelayed(content: String, request: String -> Response)
    requires !NoQualifier(Words(content))
    requires request(ExtractSpec(Words(content)).value).RequestFailed?
    ensures HandleSpec(content, request).reply
      == ErrorPrefix + request(ExtractSpec(Words(content)).value).exceptionText
  {
    GuardOnlyOnNoCity(content);
  }

  /** A successful request is answered with the report of the fetched record. */
  lemma ReportRelayed(content: String, request: String -> Response)
    requires !NoQualifier(Words(content))
    requires request(ExtractSpec(Words(content)).value).Fetched?
    ensures HandleSpec(content, request).reply
      == FormatReport(request(ExtractSpec(Words(content)).value).record)
  {
    GuardOnlyOnNoCity(content);
  }

  /** Tokenizing a message written as lower-case tokens separated by single
      spaces gives those tokens back. */
  lemma WordsOfJoin(words: seq<String>)
    requires AllWords(words)
    requires forall k :: 0 <= k < |words| ==> NoUpper(words[k])
    ensures Words(Join(" ", words)) == words
  {
    JoinNoUpper(words);
    LowerOfNoUpper(Join(" ", words));
    SplitJoin(words);
  }

  /** Tokenizing a lower-case message gives exactly the tokens it is built from,
      whatever white space surrounds and separates them. */
  lemma WordsOfInterleave(content: String, gaps: seq<String>, words: seq<String>)
    requires AllWords(words) && Separators(gaps, |words|)
    requires Lower(content) == Interleave(gaps, words)
    ensures Words(content) == words
  {
    SplitInterleave(gaps, words);
  }

  /** The tokens "weather", "in", "london", "today" give the city "London today":
      both tokens after the marker are taken. */
  lemma LondonToday(words: seq<String>)
    requires words == ["weather", "in", "london", "today"]
    ensures ExtractSpec(words) == Some("London today")
  {
    assert IsFirstQualifier(words, 1);
    ExtractAtFirst(words, 1);
    CityAtForm(words, 1);
    assert [UpperChar('l')] + "ondon" + " " + "today" == "London today";
  }

  /** The message "weather in london today" asks the fetcher for "London today". */
  lemma LondonTodayMessage(request: String -> Response)
    ensures ExtractSpec(Words("weather in london today")) == Some("London today")
    ensures HandleSpec("weather in london today", request).queried == ["London today"]
  {
    var ws: seq<String> := ["weather", "in", "london", "today"];
    assert Join(" ", ws[3..]) == "today";
    assert Join(" ", ws[2..]) == "london today";
    assert Join(" ", ws[1..]) == "in london today";
    assert Join(" ", ws[0..]) == "weather in london today";
    assert ws[0..] == ws;
    WordsOfJoin(ws);
    LondonToday(ws);
    GuardOnlyOnNoCity("weather in london today");
  }
}
