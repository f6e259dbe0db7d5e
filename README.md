# Weather assistant: city extraction and reply dispatch

A Dafny model of the message handler of a small chat weather assistant. When a
chat message arrives, the handler lower-cases it and splits it on white space.
It looks for the first marker token ("in", "for" or "at") that has another token
after it. It takes the next one or two tokens, joins them with a space and
capitalizes the result as the city. With no city it replies with a fixed prompt
and does not call the weather fetcher. Otherwise it calls the fetcher. A failed
request is relayed as "Failed to fetch weather data: " followed by the exception
text. A successful one is rendered through the fixed report template, with the
condition text lower-cased.

Modules:

- `Optional` (optional.dfy): Python's `None`-or-value as `Option`.
- `Ascii` (ascii.dfy): the `str` built-ins the handler uses (`lower`, `split`,
  `capitalize`, `" ".join`) on ASCII letters and ASCII white space, with their
  properties (split gives exactly the maximal non-white-space runs of any string, lower is idempotent, and so on).
- `CityExtractor` (city_extractor.dfy): the scan. `ExtractCity` is the
  imperative `for`/`break` loop. `ExtractSpec` is its reference definition. The
  lemmas characterize `ExtractSpec` outright: which index wins, what the city
  looks like, and that it is never empty.
- `Weather` (weather.dfy): `get_weather_data` with the HTTP round trip passed in
  as a function `request`, the error-string construction, and the report
  template.
- `Handler` (handler.dfy): `handle_message` as a method that returns the reply
  and the list of cities the fetcher was called with, proved against
  `HandleSpec`.

## Model

| member | source | states |
|---|---|---|
| `Ascii.LowerChar` | main.py:43 | the result is never an upper-case letter; only upper-case letters change, each into the lower-case letter whose upper-case form it is |
| `Ascii.UpperChar` | main.py:46 | the result is never a lower-case letter; only lower-case letters change, each into the corresponding upper-case letter |
| `Ascii.Lower` | main.py:43 | same length; each character is lower-cased on its own; the result has no upper-case letter |
| `Ascii.Capitalize` | main.py:46 | same length; the first character upper-cased, every later one lower-cased |
| `Ascii.Join` | main.py:46 | no strings join to the empty string, one string to itself, two strings to the first, the separator and the second |
| `Ascii.TokenLength` | main.py:43 | the length of the leading run of non-white-space characters: every character before it is not white space, and the one at it (if any) is |
| `Ascii.Split` | main.py:43 | every token is non-empty and contains no white space; which tokens they are, in order, is fixed for every input by `SplitInterleave` and `SplitDecomposes` |
| `Ascii.SplitSkipsSpace` | main.py:43 | leading white space does not change the tokens |
| `Ascii.SplitInterleave` | main.py:43 | for any tokens set among white-space gaps (any white space before, between and after; non-empty between), splitting gives exactly those tokens in order |
| `Ascii.InterleaveWidenFirst` | main.py:43 | growing the first gap at its front grows the built string at its front |
| `Ascii.InterleavePrepend` | main.py:43 | a token placed first with an empty gap before it is prepended to the built string |
| `Ascii.Gaps` | main.py:43 | gives white-space gaps that, set around the tokens of `s`, rebuild `s` exactly |
| `Ascii.SplitDecomposes` | main.py:43 | every string is its tokens set among white-space gaps; with `SplitInterleave` this fixes the tokens of every string as its maximal non-white-space runs |
| `Ascii.LowerIdempotent` | main.py:43 | lower-casing twice equals lower-casing once |
| `Ascii.LowerOfNoUpper` | main.py:43 | a string with no upper-case letter is unchanged by lower-casing |
| `Ascii.CapitalizeIdempotent` | main.py:46 | capitalizing a capitalized string changes nothing |
| `Ascii.CapitalizeOfLowered` | main.py:43-46 | on an already lower-cased non-empty string, capitalize changes only the first character, to its upper-case form |
| `Ascii.CapitalizeShape` | main.py:46 | a capitalized string starts with no lower-case letter and has no upper-case letter after that |
| `Ascii.TokenLengthOfWordThenSpace` | main.py:43 | a non-empty white-space-free token followed by white space or the end is read as exactly one token |
| `Ascii.SplitJoin` | main.py:43-46 | splitting the single-space join of well-formed tokens gives those tokens back |
| `Ascii.JoinNoUpper` | main.py:46 | joining strings with no upper-case letter by a space gives a string with none |
| `Ascii.SplitNoUpper` | main.py:43 | the tokens of a string with no upper-case letter have none |
| `CityExtractor.Window` | main.py:46 | the slice after the marker holds one or two tokens: the next one, plus the one after it exactly when that exists |
| `CityExtractor.ScanFrom` | main.py:44-45 | the index found is at or after the start, qualifies (a marker with a token after it), and no index between the start and it qualifies; with no index found, none qualifies |
| `CityExtractor.CityAt` | main.py:46 | the city taken at a qualifying index is as long as the next token, plus a space and the token after when that exists; it starts with the upper-case form of the next token's first character and has no upper-case letter after that |
| `CityExtractor.ExtractSpec` | main.py:42-47 | no city exactly when no index holds a marker with a token after it; a found city is the one taken at the first such index |
| `CityExtractor.ExtractAtFirst` | main.py:44-47 | whenever `i` is the first qualifying index, the result is the city taken at `i` |
| `CityExtractor.ExtractCity` | main.py:42-47 | the loop returns no city exactly when no index qualifies, otherwise the city at the first qualifying index; it agrees with `ExtractSpec` |
| `CityExtractor.FirstMatchWins` | main.py:44-47 | two token lists that agree up to two tokens past the first qualifying marker give the same city, whatever follows |
| `CityExtractor.FoundCityNonEmpty` | main.py:43-48 | a city found among non-empty tokens is never the empty string |
| `CityExtractor.CityAtForm` | main.py:43-46 | from lower-cased tokens, the city is the first token with its first character upper-cased, then a space and the second token unchanged when a second token exists |
| `CityExtractor.HeadIsWord` | main.py:46 | upper-casing the first character of a token keeps it a token |
| `CityExtractor.SpacesOfPair` | main.py:46 | two tokens joined by a space have white space only at the joint |
| `CityExtractor.FoundCityShape` | main.py:43-46 | a found city is non-empty, does not start with a lower-case letter, has no upper-case letter after the first character, and contains at most one white-space character, which is a space |
| `Weather.ErrorMessage` | main.py:31 | the error string is the fixed prefix followed by the exception text, and its length is their sum |
| `Weather.ExceptionText` | main.py:31 | recovers the text exactly when the string starts with the prefix; putting the prefix back gives the string |
| `Weather.ExceptionTextOfErrorMessage` | main.py:31 | the exception text can be read back from every error string |
| `Weather.ErrorMessageInjective` | main.py:31 | different exception texts give different error strings |
| `Weather.GetWeatherData` | main.py:15-31 | an error exactly when the request raised; the record returned unchanged on success; on error, a message from which the exception text can be read back |
| `Weather.EveryErrorHasPrefix` | main.py:30-31 | every error the fetcher returns is the prefix followed by some text |
| `Weather.Pieces` | main.py:57-60 | the template has fifteen pieces, and the condition piece has no upper-case letter |
| `Weather.FormatReport` | main.py:57-60 | the reply starts with "It's currently ", ends with " mph." and is exactly as long as its pieces together |
| `Weather.ConcatAll` | main.py:57-60 | every piece sits unchanged at its offset in a concatenation, and the concatenation ends after the last piece |
| `Weather.ConcatAt` | main.py:57-60 | every template piece sits unchanged at its offset in the rendered reply |
| `Weather.ReportIsTemplate` | main.py:57-60 | the reply holds, in template order, each piece at the offset given by the lengths of the preceding pieces: the literal text and the record's temperature in F and C, city, country, lower-cased condition, wind direction and wind speed, unchanged; its length is the sum of the pieces |
| `Weather.ReportConditionLowered` | main.py:59 | the reply is the same whether or not the condition was lower-cased beforehand |
| `Weather.ReportIgnoresConditionCase` | main.py:59 | conditions that differ only in letter case give the same reply |
| `Handler.Words` | main.py:43 | the tokens of the lower-cased message are non-empty, free of white space and free of upper-case letters; set among the message's white-space gaps they rebuild the lower-cased message |
| `Handler.Missing` | main.py:48 | `not city` holds exactly for no city and for the empty string |
| `Handler.Respond` | main.py:48-61 | when the city is missing, the fixed prompt and no fetch; otherwise one fetch with the city, and the reply is the error prefix followed by the exception text when the request raised, or the report of the fetched record |
| `Handler.HandleSpec` | main.py:42-61 | the fetcher is called exactly when some marker is followed by a token, once and with the extracted city; otherwise the reply is the fixed prompt |
| `Handler.HandleMessage` | main.py:40-61 | agrees with `HandleSpec`; the fetcher is not called exactly when no marker is followed by a token, in which case the reply is the fixed prompt; otherwise it is called once, with the extracted city |
| `Handler.GuardOnlyOnNoCity` | main.py:43-48 | the `if not city` guard fires exactly when no city was found |
| `Handler.NoCityMeansPrompt` | main.py:48-52 | with no qualifying marker, the reply is "Please specify a city, e.g., 'weather in London'." and the fetcher is not called; otherwise the fetcher is called once, with the city |
| `Handler.ErrorRelayed` | main.py:52-55 | when the request raises, the reply is "Failed to fetch weather data: " followed by the exception text |
| `Handler.ReportRelayed` | main.py:52-61 | when the request succeeds, the reply is the report of the fetched record |
| `Handler.WordsOfInterleave` | main.py:43 | a lower-case message built from tokens and white-space gaps tokenizes to exactly those tokens |
| `Handler.WordsOfJoin` | main.py:43 | a message of lower-case tokens separated by single spaces tokenizes to exactly those tokens |
| `Handler.LondonToday` | main.py:44-47 | the tokens "weather", "in", "london", "today" give the city "London today": two tokens are always taken when available |
| `Handler.LondonTodayMessage` | main.py:42-52 | the message "weather in london today" extracts "London today", and the fetcher is called once, with it |

## Left out

- The HTTP GET, `raise_for_status` and the JSON field access (main.py:16-29) are external I/O. The response is the parameter `request`: a parsed record or the text of a `requests.RequestException`. Other exceptions, for example a `KeyError` from a missing JSON field, escape `get_weather_data` uncaught; the model does not cover them.
- URL construction (main.py:16) only feeds that I/O and is not modelled.
- `temp_c`, `temp_f` and `wind_mph` are JSON numbers whose Python `str()` rendering is not modelled. They are kept as the text the reply shows.
- The API-key check at start-up (main.py:7-12) reads environment configuration and is not modelled.
- The chat framework is not modelled: decorators, `async`/`await`, `cl.Message(...).send()` and the greeting sent at chat start (main.py:33-36). This is UI plumbing with a constant greeting.
- `Ascii.Lower`, `Ascii.Capitalize`, `Ascii.Split`: only ASCII letters change case and only ASCII white space separates tokens. Python's full Unicode case mapping is not modelled. Nor is Unicode white space such as U+00A0, U+0085 or U+2000-U+200A. `capitalize` uses title case for the first character; for ASCII that is the same as upper case.
- The model does not prove that sending the same message twice gives the same reply. That follows from `HandleMessage`'s contract, which makes its results a function of the message and `request`.
- The concrete report for the sample record (Paris, France, 18 °C, 64.4 °F, "Sunny", 5 mph, NW) is not proved as a literal string, because the solver cannot equate a long literal concatenation cheaply. `Weather.ReportIsTemplate` states its structure in general instead.
