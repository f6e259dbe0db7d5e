/** The Python `str` built-ins the message handler relies on (`lower`, `split`,
    `capitalize` and `" ".join`), restricted to ASCII letters and ASCII white space. */
module Ascii {

  type String = seq<char>

  predicate IsUpper(c: char) { 'A' <= c <= 'Z' }

  predicate IsLower(c: char) { 'a' <= c <= 'z' }

  /** Python's `str.isspace` below code point 128: tab, line feed, vertical tab,
      form feed, carriage return, the four separators 0x1C-0x1F and the space. */
  predicate IsSpace(c: char) { 9 <= c as int <= 13 || 28 <= c as int <= 32 }

  /** No upper-case ASCII letter anywhere in `s`. */
  predicate NoUpper(s: String) { forall k :: 0 <= k < |s| ==> !IsUpper(s[k]) }

  /** A token of `str.split()`: non-empty and free of white space. */
  predicate IsWord(w: String) { w != [] && forall k :: 0 <= k < |w| ==> !IsSpace(w[k]) }

  predicate AllWords(ws: seq<String>) { forall k :: 0 <= k < |ws| ==> IsWord(ws[k]) }

  function LowerChar(c: char): (r: char)
    ensures !IsUpper(r)
    ensures IsUpper(c) || r == c
    ensures IsUpper(c) ==> IsLower(r) && UpperChar(r) == c
  {
    if IsUpper(c) then (c as int + 32) as char else c
  }

  function UpperChar(c: char): (r: char)
    ensures !IsLower(r)
    ensures IsLower(c) || r == c
    ensures IsLower(c) ==> IsUpper(r) && r as int + 32 == c as int
  {
    if IsLower(c) then (c as int - 32) as char else c
  }

  /** `str.lower()`. */
  function Lower(s: String): (r: String)
    ensures |r| == |s|
    ensures forall k :: 0 <= k < |s| ==> r[k] == LowerChar(s[k])
    ensures NoUpper(r)
  {
    if s == [] then [] else [LowerChar(s[0])] + Lower(s[1..])
  }

  /** `str.capitalize()`: the first character upper-cased, the rest lower-cased. */
  function Capitalize(s: String): (r: String)
    ensures |r| == |s|
    ensures s != [] ==> r[0] == UpperChar(s[0])
    ensures forall k :: 1 <= k < |s| ==> r[k] == LowerChar(s[k])
  {
    if s == [] then [] else [UpperChar(s[0])] + Lower(s[1..])
  }

  /** `sep.join(ws)`. */
  function Join(sep: String, ws: seq<String>): (r: String)
    ensures ws == [] ==> r == []
    ensures |ws| == 1 ==> r == ws[0]
    ensures |ws| == 2 ==> r == ws[0] + sep + ws[1]
  {
    if ws == [] then []
    else if |ws| == 1 then ws[0]
    else ws[0] + sep + Join(sep, ws[1..])
  }

  /** Length of the leading run of characters that are not white space. */
  function TokenLength(s: String): (n: nat)
    ensures n <= |s|
    ensures forall k :: 0 <= k < n ==> !IsSpace(s[k])
    ensures n == |s| || IsSpace(s[n])
  {
    if s == [] || IsSpace(s[0]) then 0 else 1 + TokenLength(s[1..])
  }

  /** `str.split()` with no argument: the maximal runs of non-white-space characters. */
  function Split(s: String): (ws: seq<String>)
    ensures AllWords(ws)
    decreases |s|
  {
    if s == [] then []
    else if IsSpace(s[0]) then Split(s[1..])
    else
      var n := TokenLength(s);
      [s[..n]] + Split(s[n..])
  }

  /** Lower-casing twice is lower-casing once. */
  lemma {:induction false} LowerIdempotent(s: String)
    ensures Lower(Lower(s)) == Lower(s)
  {
    if s != [] {
      LowerIdempotent(s[1..]);
    }
  }

  /** A string without upper-case letters is its own lower-case form. */
  lemma {:induction false} LowerOfNoUpper(s: String)
    requires NoUpper(s)
    ensures Lower(s) == s
  {
    if s != [] {
      LowerOfNoUpper(s[1..]);
    }
  }

  /** Capitalizing a capitalized string changes nothing. */
  lemma CapitalizeIdempotent(s: String)
    ensures Capitalize(Capitalize(s)) == Capitalize(s)
  {
    if s != [] {
      LowerIdempotent(s[1..]);
      assert Capitalize(s)[1..] == Lower(s[1..]);
    }
  }

  /** On a string already lower-cased, `capitalize` only touches the first character. */
  lemma CapitalizeOfLowered(s: String)
    requires NoUpper(s) && s != []
    ensures Capitalize(s) == [UpperChar(s[0])] + s[1..]
  {
    LowerOfNoUpper(s[1..]);
  }

  /** The result of `capitalize` starts with no lower-case letter and has no upper-case one after it. */
  lemma CapitalizeShape(s: String)
    ensures Capitalize(s) != [] ==> !IsLower(Capitalize(s)[0])
    ensures forall k :: 1 <= k < |Capitalize(s)| ==> !IsUpper(Capitalize(s)[k])
  {
  }

  /** A well-formed token is a single token of `split()`. */
  lemma {:induction false} TokenLengthOfWordThenSpace(w: String, t: String)
    requires IsWord(w)
    requires t == [] || IsSpace(t[0])
    ensures TokenLength(w + t) == |w|
  {
    if |w| > 1 {
      assert (w + t)[1..] == w[1..] + t;
      TokenLengthOfWordThenSpace(w[1..], t);
    } else {
      assert (w + t)[1..] == t;
    }
  }

  /** `split()` undoes `" ".join` on well-formed tokens. */
  lemma {:induction false} SplitJoin(ws: seq<String>)
    requires AllWords(ws)
    ensures Split(Join(" ", ws)) == ws
  {
    if ws == [] {
    } else if |ws| == 1 {
      var w := ws[0];
      TokenLengthOfWordThenSpace(w, []);
      assert w + [] == w;
      assert w[|w|..] == [];
      assert w[..|w|] == w;
    } else {
      var w, rest := ws[0], Join(" ", ws[1..]);
      var s := w + " " + rest;
      assert s == w + (" " + rest);
      TokenLengthOfWordThenSpace(w, " " + rest);
      assert s[..|w|] == w;
      assert s[|w|..] == " " + rest;
      assert (" " + rest)[1..] == rest;
      SplitJoin(ws[1..]);
      assert Split(s) == [w] + Split(" " + rest);
      assert ws == [w] + ws[1..];
    }
  }

  /** Joining strings without upper-case letters by a space gives none either. */
  lemma {:induction false} JoinNoUpper(ws: seq<String>)
    requires forall k :: 0 <= k < |ws| ==> NoUpper(ws[k])
    ensures NoUpper(Join(" ", ws))
  {
    if |ws| > 1 {
      JoinNoUpper(ws[1..]);
    }
  }

  /** The tokens of a string without upper-case letters have none either. */
  lemma {:induction false} SplitNoUpper(s: String)
    requires NoUpper(s)
    ensures forall k :: 0 <= k < |Split(s)| ==> NoUpper(Split(s)[k])
    decreases |s|
  {
    if s == [] {
    } else if IsSpace(s[0]) {
      SplitNoUpper(s[1..]);
    } else {
      var n := TokenLength(s);
      assert NoUpper(s[..n]);
      SplitNoUpper(s[n..]);
    }
  }

  /** Every character of `g` is white space (`g` may be empty). */
  predicate AllSpace(g: String) { forall k :: 0 <= k < |g| ==> IsSpace(g[k]) }

  /** `gaps` can separate `n` tokens: one gap before, between and after them,
      all white space, with the inner ones non-empty. */
  predicate Separators(gaps: seq<String>, n: nat)
  {
    |gaps| == n + 1 &&
    (forall k :: 0 <= k < |gaps| ==> AllSpace(gaps[k])) &&
    forall k :: 0 < k < n ==> gaps[k] != []
  }

  /** `gaps[0] + ws[0] + gaps[1] + ... + ws[n - 1] + gaps[n]`. */
  function Interleave(gaps: seq<String>, ws: seq<String>): String
    requires |gaps| == |ws| + 1
  {
    if ws == [] then gaps[0] else gaps[0] + ws[0] + Interleave(gaps[1..], ws[1..])
  }

  /** Leading white space does not change the tokens. */
  lemma {:induction false} SplitSkipsSpace(g: String, t: String)
    requires AllSpace(g)
    ensures Split(g + t) == Split(t)
  {
    if g != [] {
      assert (g + t)[1..] == g[1..] + t;
      SplitSkipsSpace(g[1..], t);
    } else {
      assert g + t == t;
    }
  }

  /** `split()` gives exactly the tokens of any string built from tokens and
      white-space gaps: the input's maximal runs of non-white-space characters,
      in order, whatever white space surrounds and separates them. */
  lemma {:induction false} SplitInterleave(gaps: seq<String>, ws: seq<String>)
    requires AllWords(ws) && Separators(gaps, |ws|)
    ensures Split(Interleave(gaps, ws)) == ws
  {
    if ws == [] {
      SplitSkipsSpace(gaps[0], []);
      assert gaps[0] + [] == gaps[0];
    } else {
      var w, t := ws[0], Interleave(gaps[1..], ws[1..]);
      assert Separators(gaps[1..], |ws[1..]|) by {
        forall k | 0 < k < |ws[1..]| ensures gaps[1..][k] != [] {
          assert gaps[1..][k] == gaps[k + 1];
        }
      }
      assert t == [] || IsSpace(t[0]) by {
        if |ws| > 1 {
          assert gaps[1..][0] == gaps[1] != [];
          assert t == gaps[1] + ws[1] + Interleave(gaps[2..], ws[2..]) by {
            assert gaps[1..][1..] == gaps[2..];
          }
        } else {
          assert t == gaps[1];
        }
      }
      SplitInterleave(gaps[1..], ws[1..]);
      assert Interleave(gaps, ws) == gaps[0] + (w + t);
      SplitSkipsSpace(gaps[0], w + t);
      TokenLengthOfWordThenSpace(w, t);
      assert (w + t)[..|w|] == w && (w + t)[|w|..] == t;
      assert ws == [w] + ws[1..];
    }
  }

  /** Growing the first gap at its front grows the string at its front. */
  lemma InterleaveWidenFirst(x: String, g: seq<String>, ws: seq<String>)
    requires |g| == |ws| + 1
    ensures Interleave([x + g[0]] + g[1..], ws) == x + Interleave(g, ws)
  {
    var gaps := [x + g[0]] + g[1..];
    assert gaps[1..] == g[1..];
  }

  /** A token with an empty gap before it is prepended to the string. */
  lemma InterleavePrepend(w: String, g: seq<String>, ws: seq<String>)
    requires |g| == |ws| + 1
    ensures Interleave([[]] + g, [w] + ws) == w + Interleave(g, ws)
  {
    assert ([[]] + g)[1..] == g;
    assert ([w] + ws)[1..] == ws;
  }

  /** The white-space gaps around the tokens of `s`. */
  function Gaps(s: String): (gaps: seq<String>)
    ensures Separators(gaps, |Split(s)|)
    ensures Interleave(gaps, Split(s)) == s
    ensures s != [] && IsSpace(s[0]) ==> gaps[0] != []
    decreases |s|
  {
    if s == [] then [[]]
    else if IsSpace(s[0]) then
      var g := Gaps(s[1..]);
      InterleaveWidenFirst([s[0]], g, Split(s[1..]));
      assert s == [s[0]] + s[1..];
      [[s[0]] + g[0]] + g[1..]
    else
      var n := TokenLength(s);
      var g := Gaps(s[n..]);
      InterleavePrepend(s[..n], g, Split(s[n..]));
      assert s == s[..n] + s[n..];
      assert |Split(s[n..])| > 0 ==> g[0] != [];
      [[]] + g
  }

  /** Every string is its tokens set among white-space gaps. With
      `SplitInterleave` this determines `Split` on every input. */
  lemma SplitDecomposes(s: String)
    ensures exists gaps :: Separators(gaps, |Split(s)|) && Interleave(gaps, Split(s)) == s
  {
    var gaps := Gaps(s);
  }
}
