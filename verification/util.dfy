/** Name normalisation and the hardware keyword pre-filter (src/util.js). */
module Util {
  import opened Text

  // ---------------------------------------------------------------------
  // normalizeName

  /** The shape of every lookup key: lower-case letters, digits and single
      spaces, with no space at either end. */
  predicate IsNormalizedKey(k: string)
  {
    && (forall i :: 0 <= i < |k| ==> IsLowerAlnum(k[i]) || k[i] == ' ')
    && (k != [] ==> k[0] != ' ' && k[|k| - 1] != ' ')
    && (forall i :: 0 <= i < |k| - 1 && k[i] == ' ' ==> k[i + 1] != ' ')
  }

  /** `normalizeName(raw)`: lower-case, turn every run of characters outside
      `[a-z0-9]` into one space, turn every whitespace run into one space,
      trim. The result is the single-space join of the maximal `[a-z0-9]`
      runs of the lower-cased input. */
  function NormalizeName(raw: string): (r: string)
    ensures raw == [] ==> r == []
    ensures IsNormalizedKey(r)
    ensures r == JoinSpace(Runs(Lower(raw), IsKeySeparator))
  {
    if raw == [] then []
    else
      var lowered := Lower(raw);
      var squashed := SquashRuns(lowered, IsKeySeparator);
      var collapsed := SquashRuns(squashed, IsSpace);
      NormalizeStages(lowered);
      Trim(collapsed)
  }

  /** The three stages after lower-casing compute the join of the runs. */
  lemma NormalizeStages(s: string)
    ensures IsNormalizedKey(JoinSpace(Runs(s, IsKeySeparator)))
    ensures Trim(SquashRuns(SquashRuns(s, IsKeySeparator), IsSpace)) == JoinSpace(Runs(s, IsKeySeparator))
  {
    var j := JoinSpace(Runs(s, IsKeySeparator));
    JoinIsNormalized(Runs(s, IsKeySeparator));
    NormalizedEnds(j);
    SquashIsSingleSpaced(s);
    var x := SquashRuns(s, IsKeySeparator);
    SquashPadsJoin(s, IsKeySeparator);
    TrimPadded(x, j);
  }

  /** A normalised key has no whitespace at either end. */
  lemma NormalizedEnds(k: string)
    requires IsNormalizedKey(k)
    ensures k == [] || (!IsSpace(k[0]) && !IsSpace(k[|k| - 1]))
  {
    if k != [] {
      var first, last := k[0], k[|k| - 1];
      assert IsLowerAlnum(first) || first == ' ';
      assert IsLowerAlnum(last) || last == ' ';
    }
  }

  /** The join of `[a-z0-9]` words is a normalised key. */
  lemma {:induction false} JoinIsNormalized(ws: seq<string>)
    requires AreWords(ws, IsKeySeparator)
    ensures IsNormalizedKey(JoinSpace(ws))
    decreases |ws|
  {
    if |ws| > 1 {
      var w := ws[0];
      var rest := JoinSpace(ws[1..]);
      assert AreWords(ws[1..], IsKeySeparator);
      JoinIsNormalized(ws[1..]);
      JoinFirst(ws[1..], " ");
      var k := JoinSpace(ws);
      assert k == w + " " + rest;
      assert forall i :: 0 <= i < |w| ==> k[i] == w[i];
      assert forall i :: |w| < i < |k| ==> k[i] == rest[i - |w| - 1];
      assert k[|w|] == ' ';
      assert !IsKeySeparator(w[|w| - 1]);
    }
  }

  /** Squashing the whitespace of an already separator-squashed string
      changes nothing. */
  lemma {:induction false} SquashIsSingleSpaced(s: string)
    ensures SquashRuns(SquashRuns(s, IsKeySeparator), IsSpace) == SquashRuns(s, IsKeySeparator)
    decreases |s|
  {
    if s != [] {
      if IsKeySeparator(s[0]) {
        var s' := s[Span(s, IsKeySeparator, true)..];
        var x := SquashRuns(s', IsKeySeparator);
        SquashIsSingleSpaced(s');
        SquashStartsWithWord(s');
        SquashSpaceThen(x);
      } else {
        var n := Span(s, IsKeySeparator, false);
        var r := s[n..];
        var x := SquashRuns(r, IsKeySeparator);
        SquashIsSingleSpaced(r);
        assert x == [] || x[0] == ' ';
        SquashWordThen(s[..n], x);
      }
    }
  }

  lemma SquashStartsWithWord(t: string)
    requires t == [] || !IsKeySeparator(t[0])
    ensures var x := SquashRuns(t, IsKeySeparator); x == [] || IsLowerAlnum(x[0])
  {
  }

  /** One space followed by a non-space keeps its place. */
  lemma SquashSpaceThen(x: string)
    requires x == [] || !IsSpace(x[0])
    ensures SquashRuns(" " + x, IsSpace) == " " + SquashRuns(x, IsSpace)
  {
    var y := " " + x;
    assert Span(y, IsSpace, true) == 1 by {
      assert y[1..] == x;
    }
    assert y[1..] == x;
  }

  /** A run of non-space characters followed by a space keeps its place. */
  lemma SquashWordThen(w: string, x: string)
    requires w != [] && forall i :: 0 <= i < |w| ==> IsLowerAlnum(w[i])
    requires x == [] || x[0] == ' '
    ensures SquashRuns(w + x, IsSpace) == w + SquashRuns(x, IsSpace)
  {
    var y := w + x;
    var n := Span(y, IsSpace, false);
    assert y[|w|..] == x;
    assert n == |w|;
    assert y[..n] == w;
  }

  /** `normalizeName` is idempotent. */
  lemma NormalizeIdempotent(raw: string)
    ensures NormalizeName(NormalizeName(raw)) == NormalizeName(raw)
  {
    var k := NormalizeName(raw);
    if k != [] {
      LowerOfLowerAlnumOrSpace(k);
      RunsOfJoin(Runs(Lower(raw), IsKeySeparator), IsKeySeparator);
    }
  }

  // ---------------------------------------------------------------------
  // Keyword tests

  /** `HARDWARE_KEYWORDS`, the keywords of the pre-filter. */
  const HardwareKeywords: seq<string> :=
    ["Intel", "AMD", "Ryzen", "Core", "Xeon", "Celeron", "Pentium", "Threadripper",
     "GeForce", "Radeon", "RTX", "GTX", "RX"]

  /** The regular expression `kw\b` with the `i` flag matches at index `i`
      (for a keyword made of letters, the boundary after it means the end
      of the text or a non-word character); with `wholeWord` it is
      `\bkw\b`, which also needs the start of the text or a non-word
      character before it. */
  predicate KeywordAt(text: string, i: int, kw: string, wholeWord: bool)
  {
    && 0 <= i && i + |kw| <= |text|
    && EqualsIgnoreCase(text[i..i + |kw|], kw)
    && (i + |kw| == |text| || !IsWordChar(text[i + |kw|]))
    && (wholeWord ==> i == 0 || !IsWordChar(text[i - 1]))
  }

  /** The alternation of `kws` matches somewhere in `text`. */
  function ContainsKeyword(text: string, kws: seq<string>, wholeWord: bool): (r: bool)
    ensures r <==> exists i, k :: 0 <= k < |kws| && KeywordAt(text, i, kws[k], wholeWord)
  {
    SearchFrom(text, kws, wholeWord, 0)
  }

  function SearchFrom(text: string, kws: seq<string>, wholeWord: bool, from: nat): (r: bool)
    ensures r <==> exists i, k :: from <= i && 0 <= k < |kws| && KeywordAt(text, i, kws[k], wholeWord)
    decreases |text| + 1 - from
  {
    if from > |text| then false
    else AnyKeywordAt(text, from, kws, wholeWord) || SearchFrom(text, kws, wholeWord, from + 1)
  }

  function AnyKeywordAt(text: string, i: int, kws: seq<string>, wholeWord: bool): (r: bool)
    ensures r <==> exists k :: 0 <= k < |kws| && KeywordAt(text, i, kws[k], wholeWord)
  {
    if kws == [] then false
    else
      assert forall k :: 1 <= k < |kws| ==> kws[k] == kws[1..][k - 1];
      KeywordAt(text, i, kws[0], wholeWord) || AnyKeywordAt(text, i, kws[1..], wholeWord)
  }

  /** `isLikelyHardwareText(text)`: some pre-filter keyword occurs,
      ignoring ASCII case, and is followed by the end of the text or a
      non-word character. Nothing is required before it. */
  function IsLikelyHardwareText(text: string): (r: bool)
    ensures r <==> exists i, k :: 0 <= k < |HardwareKeywords| && KeywordAt(text, i, HardwareKeywords[k], false)
  {
    ContainsKeyword(text, HardwareKeywords, false)
  }

  /** No word boundary is needed before the keyword: "subcore x" passes. */
  lemma SubwordPassesPrefilter()
    ensures IsLikelyHardwareText("subcore x")
  {
    assert HardwareKeywords[3] == "Core";
    assert KeywordAt("subcore x", 3, HardwareKeywords[3], false);
  }
}
