/** The city extractor of `handle_message`: scan the lower-cased tokens of a chat
    message for the first marker ("in", "for", "at") that still has a token after it,
    and take the next one or two tokens, joined by a space and capitalized. */
module CityExtractor {

  import opened Ascii
  import opened Optional

  const Markers: seq<String> := ["in", "for", "at"]

  predicate IsMarker(w: String) { w in Markers }

  /** Index `i` holds a marker and some token follows it. */
  predicate Qualifies(words: seq<String>, i: int)
  {
    0 <= i < |words| && IsMarker(words[i]) && i + 1 < |words|
  }

  /** No index qualifies: the extractor finds no city. */
  predicate NoQualifier(words: seq<String>)
  {
    forall i :: 0 <= i < |words| ==> !Qualifies(words, i)
  }

  predicate IsFirstQualifier(words: seq<String>, i: int)
  {
    Qualifies(words, i) && forall j :: 0 <= j < i ==> !Qualifies(words, j)
  }

  function Min(a: int, b: int): int { if a <= b then a else b }

  /** The slice `words[i + 1:i + 3]`: the one or two tokens after the marker. */
  function Window(words: seq<String>, i: int): (w: seq<String>)
    requires Qualifies(words, i)
    ensures 1 <= |w| <= 2 && w[0] == words[i + 1]
    ensures |w| == 2 <==> i + 2 < |words|
    ensures |w| == 2 ==> w[1] == words[i + 2]
  {
    words[i + 1..Min(i + 3, |words|)]
  }

  /** The city taken at a qualifying index: the one or two tokens after it,
      joined by a space and capitalized. */
  function CityAt(words: seq<String>, i: int): (c: String)
    requires Qualifies(words, i)
    ensures |c| == |words[i + 1]| + if i + 2 < |words| then 1 + |words[i + 2]| else 0
    ensures words[i + 1] != [] ==> c[0] == UpperChar(words[i + 1][0])
    ensures forall k :: 1 <= k < |c| ==> !IsUpper(c[k])
  {
    Capitalize(Join(" ", Window(words, i)))
  }

  /** The first qualifying index at or after `k`, if there is one. */
  function ScanFrom(words: seq<String>, k: nat): (r: Option<nat>)
    requires k <= |words|
    ensures r.Some? ==> k <= r.value && Qualifies(words, r.value)
    ensures r.Some? ==> forall j :: k <= j < r.value ==> !Qualifies(words, j)
    ensures r.None? ==> forall j :: k <= j < |words| ==> !Qualifies(words, j)
    decreases |words| - k
  {
    if k == |words| then None
    else if Qualifies(words, k) then Some(k)
    else ScanFrom(words, k + 1)
  }

  /** The reference definition of the extractor. */
  function ExtractSpec(words: seq<String>): (r: Option<String>)
    ensures r.None? <==> NoQualifier(words)
    ensures r.Some? ==> exists i :: IsFirstQualifier(words, i) && r.value == CityAt(words, i)
  {
    match ScanFrom(words, 0)
    case None => None
    case Some(i) => Some(CityAt(words, i))
  }

  /** The city is the one at the first qualifying index, whatever follows. */
  lemma ExtractAtFirst(words: seq<String>, i: int)
    requires IsFirstQualifier(words, i)
    ensures ExtractSpec(words) == Some(CityAt(words, i))
  {
    var r := ScanFrom(words, 0);
    assert r.Some?;
    assert r.value == i;
  }

  /** The `for`/`break` loop of `handle_message`. */
  method ExtractCity(words: seq<String>) returns (city: Option<String>)
    ensures city.None? <==> NoQualifier(words)
    ensures city.Some? ==> exists i :: IsFirstQualifier(words, i) && city.value == CityAt(words, i)
    ensures city == ExtractSpec(words)
  {
    city := None;
    for i := 0 to |words|
      invariant city == None
      invariant forall j :: 0 <= j < i ==> !Qualifies(words, j)
    {
      if words[i] in Markers && i + 1 < |words| {
        city := Some(Capitalize(Join(" ", words[i + 1..Min(i + 3, |words|)])));
        assert IsFirstQualifier(words, i);
        ExtractAtFirst(words, i);
        break;
      }
    }
  }

  /** First match wins: once a marker with two tokens after it is found,
      nothing after those two tokens influences the result. */
  lemma FirstMatchWins(w1: seq<String>, w2: seq<String>, i: int)
    requires IsFirstQualifier(w1, i)
    requires i + 3 <= |w1| && i + 3 <= |w2| && w1[..i + 3] == w2[..i + 3]
    ensures ExtractSpec(w1) == ExtractSpec(w2)
  {
    assert forall j :: 0 <= j < i + 3 ==> w1[j] == w2[j] by {
      forall j | 0 <= j < i + 3 ensures w1[j] == w2[j] {
        assert w1[..i + 3][j] == w2[..i + 3][j];
      }
    }
    assert IsFirstQualifier(w2, i) by {
      forall j | 0 <= j < i ensures !Qualifies(w2, j) {
        assert !Qualifies(w1, j);
      }
    }
    assert Window(w1, i) == Window(w2, i);
    ExtractAtFirst(w1, i);
    ExtractAtFirst(w2, i);
  }

  /** A found city is never empty, so `if not city` only fires when there is no city. */
  lemma FoundCityNonEmpty(words: seq<String>)
    requires AllWords(words)
    ensures ExtractSpec(words).Some? ==> ExtractSpec(words).value != []
  {
    if ExtractSpec(words).Some? {
      var i :| IsFirstQualifier(words, i) && ExtractSpec(words).value == CityAt(words, i);
      var w := Window(words, i);
      assert IsWord(words[i + 1]);
      if |w| == 2 {
        assert w[1..] == [w[1]];
        assert Join(" ", w) == w[0] + " " + w[1];
      }
    }
  }

  /** The exact form of the city taken at `i` from lower-cased tokens: the first
      token with its first character upper-cased, then, when there is one, a space
      and the second token unchanged. */
  lemma CityAtForm(words: seq<String>, i: int)
    requires Qualifies(words, i) && AllWords(words)
    requires forall k :: 0 <= k < |words| ==> NoUpper(words[k])
    ensures var a := words[i + 1];
      CityAt(words, i) ==
        if i + 2 < |words| then [UpperChar(a[0])] + a[1..] + " " + words[i + 2]
        else [UpperChar(a[0])] + a[1..]
  {
    var w := Window(words, i);
    var a := words[i + 1];
    assert IsWord(a) && NoUpper(a);
    if |w| == 2 {
      var b := words[i + 2];
      assert NoUpper(b);
      assert w[1..] == [b];
      var joined := a + " " + b;
      assert Join(" ", w) == joined;
      assert NoUpper(joined);
      CapitalizeOfLowered(joined);
      assert joined[0] == a[0];
      assert joined[1..] == a[1..] + " " + b;
    } else {
      assert Join(" ", w) == a;
      CapitalizeOfLowered(a);
    }
  }

  /** The city consists of non-empty tokens with at most one space, inserted only between them. */
  predicate AtMostOneSpace(c: String)
  {
    forall k, m :: 0 <= k < |c| && 0 <= m < |c| && IsSpace(c[k]) && IsSpace(c[m]) ==> k == m
  }

  /** Upper-casing the first character of a token keeps it a token. */
  lemma HeadIsWord(a: String)
    requires IsWord(a)
    ensures IsWord([UpperChar(a[0])] + a[1..])
  {
    var head := [UpperChar(a[0])] + a[1..];
    forall k | 0 < k < |head| ensures !IsSpace(head[k]) {
      assert head[k] == a[k];
    }
  }

  /** Two tokens joined by a space hold white space only at the joint. */
  lemma SpacesOfPair(a: String, b: String)
    requires IsWord(a) && IsWord(b)
    ensures forall k :: 0 <= k < |a + " " + b| && IsSpace((a + " " + b)[k]) ==> k == |a|
  {
    var c := a + " " + b;
    assert forall k :: 0 <= k < |a| ==> c[k] == a[k];
    assert forall k :: |a| < k < |c| ==> c[k] == b[k - |a| - 1];
  }

  /** A found city from lower-cased tokens is non-empty, starts with no lower-case
      letter, has no upper-case letter after the first character, and contains at
      most one white-space character, a space. */
  lemma FoundCityShape(words: seq<String>)
    requires AllWords(words)
    requires forall k :: 0 <= k < |words| ==> NoUpper(words[k])
    ensures ExtractSpec(words).Some? ==>
      var c := ExtractSpec(words).value;
      c != [] && !IsLower(c[0]) && (forall k :: 1 <= k < |c| ==> !IsUpper(c[k])) &&
      AtMostOneSpace(c) && forall k :: 0 <= k < |c| && IsSpace(c[k]) ==> c[k] == ' '
  {
    if ExtractSpec(words).Some? {
      var i :| IsFirstQualifier(words, i) && ExtractSpec(words).value == CityAt(words, i);
      var a := words[i + 1];
      assert IsWord(a);
      var head := [UpperChar(a[0])] + a[1..];
      HeadIsWord(a);
      CityAtForm(words, i);
      if i + 2 < |words| {
        assert IsWord(words[i + 2]);
        SpacesOfPair(head, words[i + 2]);
      }
    }
  }
}
