/** String primitives that the JavaScript code takes from the language:
    the `\s` class and `trim`, ASCII case folding, splitting a string into
    maximal runs, `join`, `indexOf`, and decimal rendering and reading of
    natural numbers. */
module Text {
  import opened Wrappers

  /** JavaScript's `\s` class; `String.prototype.trim` strips the same set
      (WhiteSpace and LineTerminator code points). */
  predicate IsSpace(c: char)
  {
    || c == ' ' || c == '\t' || c == '\n' || c == '\r' || c == '\U{B}' || c == '\U{C}'
    || c == '\U{A0}' || c == '\U{1680}' || ('\U{2000}' <= c <= '\U{200A}')
    || c == '\U{2028}' || c == '\U{2029}' || c == '\U{202F}' || c == '\U{205F}'
    || c == '\U{3000}' || c == '\U{FEFF}'
  }

  /** The regular-expression class `[a-z0-9]`. */
  predicate IsLowerAlnum(c: char)
  {
    ('a' <= c <= 'z') || ('0' <= c <= '9')
  }

  /** The complement of `[a-z0-9]`: what `normalizeName` turns into spaces. */
  predicate IsKeySeparator(c: char)
  {
    !IsLowerAlnum(c)
  }

  /** The regular-expression class `\w` (without the `u` flag). */
  predicate IsWordChar(c: char)
  {
    ('a' <= c <= 'z') || ('A' <= c <= 'Z') || ('0' <= c <= '9') || c == '_'
  }

  predicate IsDigit(c: char)
  {
    '0' <= c <= '9'
  }

  /** ASCII lower-casing of one character. */
  function LowerChar(c: char): (r: char)
    ensures 'A' <= c <= 'Z' ==> 'a' <= r <= 'z'
    ensures !('A' <= c <= 'Z') ==> r == c
    ensures IsWordChar(r) <==> IsWordChar(c)
  {
    if 'A' <= c <= 'Z' then (c as int - 'A' as int + 'a' as int) as char else c
  }

  /** ASCII lower-casing of a string, character by character. */
  function Lower(s: string): (r: string)
    ensures |r| == |s|
    ensures forall i :: 0 <= i < |s| ==> r[i] == LowerChar(s[i])
  {
    seq(|s|, i requires 0 <= i < |s| => LowerChar(s[i]))
  }

  /** Lower-casing leaves a string of `[a-z0-9]` and spaces as it is. */
  lemma LowerOfLowerAlnumOrSpace(s: string)
    requires forall i :: 0 <= i < |s| ==> IsLowerAlnum(s[i]) || s[i] == ' '
    ensures Lower(s) == s
  {
  }

  /** Case-insensitive comparison in the sense of the regular-expression
      `i` flag for the ASCII letters. */
  predicate EqualsIgnoreCase(a: string, b: string)
  {
    Lower(a) == Lower(b)
  }

  // ---------------------------------------------------------------------
  // JavaScript string length

  /** The UTF-16 code units a character takes: two (a surrogate pair) for
      one outside the Basic Multilingual Plane, one otherwise. */
  function Utf16Units(c: char): (n: nat)
    ensures 1 <= n <= 2
  {
    if c as int > 0xFFFF then 2 else 1
  }

  /** `s.length` in JavaScript, which counts UTF-16 code units rather than
      characters. */
  function JsLength(s: string): (n: nat)
    ensures |s| <= n <= 2 * |s|
  {
    if s == [] then 0 else JsLength(s[..|s| - 1]) + Utf16Units(s[|s| - 1])
  }

  /** The length of a concatenation is the sum of the lengths. */
  lemma {:induction false} JsLengthAppend(a: string, b: string)
    ensures JsLength(a + b) == JsLength(a) + JsLength(b)
    decreases |b|
  {
    if b != [] {
      var b' := b[..|b| - 1];
      assert (a + b)[..|a + b| - 1] == a + b';
      JsLengthAppend(a, b');
    } else {
      assert a + b == a;
    }
  }

  /** Within the Basic Multilingual Plane code units and characters agree. */
  lemma {:induction false} JsLengthOfBmp(s: string)
    requires forall i :: 0 <= i < |s| ==> s[i] as int <= 0xFFFF
    ensures JsLength(s) == |s|
    decreases |s|
  {
    if s != [] {
      JsLengthOfBmp(s[..|s| - 1]);
    }
  }

  /** An emoji after a letter: two characters, three code units. */
  lemma JsLengthOfEmoji()
    ensures JsLength("a\U{1F600}") == 3
  {
    assert "a\U{1F600}"[..1] == "a";
    assert "a"[..0] == "";
  }

  // ---------------------------------------------------------------------
  // Runs

  /** The length of the longest prefix of `s` whose characters all have
      `p(c) == want`. */
  function Span(s: string, p: char -> bool, want: bool): (n: nat)
    ensures n <= |s|
    ensures forall i :: 0 <= i < n ==> p(s[i]) == want
    ensures n == |s| || p(s[n]) != want
  {
    if s == [] || p(s[0]) != want then 0 else 1 + Span(s[1..], p, want)
  }

  /** The maximal non-empty runs of characters that are not separators,
      in order: `s.split(/sep+/).filter(Boolean)`. */
  function Runs(s: string, sep: char -> bool): (r: seq<string>)
    ensures forall k :: 0 <= k < |r| ==> r[k] != []
    ensures forall k, i :: 0 <= k < |r| && 0 <= i < |r[k]| ==> !sep(r[k][i])
    decreases |s|
  {
    if s == [] then []
    else if sep(s[0]) then Runs(s[Span(s, sep, true)..], sep)
    else
      var n := Span(s, sep, false);
      [s[..n]] + Runs(s[n..], sep)
  }

  /** `s.replace(/sep+/g, " ")`: every maximal run of separators becomes a
      single space, everything else is kept. */
  function SquashRuns(s: string, sep: char -> bool): string
    decreases |s|
  {
    if s == [] then []
    else if sep(s[0]) then " " + SquashRuns(s[Span(s, sep, true)..], sep)
    else
      var n := Span(s, sep, false);
      s[..n] + SquashRuns(s[n..], sep)
  }

  /** `ws.join(glue)`. */
  function Join(ws: seq<string>, glue: string): string
  {
    if ws == [] then []
    else if |ws| == 1 then ws[0]
    else ws[0] + glue + Join(ws[1..], glue)
  }

  function JoinSpace(ws: seq<string>): string
  {
    Join(ws, " ")
  }

  lemma JoinCons(w: string, ws: seq<string>, glue: string)
    requires ws != []
    ensures Join([w] + ws, glue) == w + glue + Join(ws, glue)
  {
    assert ([w] + ws)[1..] == ws;
  }

  /** Words of a single-space join: non-empty and free of separators. */
  ghost predicate AreWords(ws: seq<string>, sep: char -> bool)
  {
    && (forall k :: 0 <= k < |ws| ==> ws[k] != [])
    && (forall k, i :: 0 <= k < |ws| && 0 <= i < |ws[k]| ==> !sep(ws[k][i]))
  }

  lemma JoinFirst(ws: seq<string>, glue: string)
    requires ws != [] && ws[0] != []
    ensures Join(ws, glue) != [] && Join(ws, glue)[0] == ws[0][0]
  {
  }

  /** Splitting a single-space join of words on separators recovers the
      words, when the space is itself a separator. */
  lemma {:induction false} RunsOfJoin(ws: seq<string>, sep: char -> bool)
    requires sep(' ')
    requires AreWords(ws, sep)
    ensures Runs(JoinSpace(ws), sep) == ws
    decreases |ws|
  {
    if ws == [] {
    } else {
      var w := ws[0];
      var s := JoinSpace(ws);
      if |ws| == 1 {
        RunsOfWord(w, [], sep);
        assert s == w + [];
      } else {
        var rest := JoinSpace(ws[1..]);
        assert s == w + (" " + rest);
        assert AreWords(ws[1..], sep);
        JoinFirst(ws[1..], " ");
        RunsOfWord(w, " " + rest, sep);
        assert Span(" " + rest, sep, true) == 1;
        assert (" " + rest)[1..] == rest;
        RunsOfJoin(ws[1..], sep);
        assert ws == [w] + ws[1..];
      }
    }
  }

  /** A word followed by a separator (or nothing) is the first run. */
  lemma RunsOfWord(w: string, t: string, sep: char -> bool)
    requires w != [] && forall i :: 0 <= i < |w| ==> !sep(w[i])
    requires t == [] || sep(t[0])
    ensures Runs(w + t, sep) == [w] + Runs(t, sep)
  {
    var s := w + t;
    var n := Span(s, sep, false);
    assert s[|w|..] == t;
    assert s[..n] == w;
  }

  // ---------------------------------------------------------------------
  // trim

  /** `s.trimStart()`. */
  function TrimStart(s: string): (r: string)
    ensures |r| <= |s| && r == s[|s| - |r|..]
    ensures r == [] || !IsSpace(r[0])
    ensures forall i :: 0 <= i < |s| - |r| ==> IsSpace(s[i])
  {
    s[Span(s, IsSpace, true)..]
  }

  /** `s.trimEnd()`. */
  function TrimEnd(s: string): (r: string)
    ensures |r| <= |s| && r == s[..|r|]
    ensures r == [] || !IsSpace(r[|r| - 1])
    ensures forall i :: |r| <= i < |s| ==> IsSpace(s[i])
  {
    if s != [] && IsSpace(s[|s| - 1]) then TrimEnd(s[..|s| - 1]) else s
  }

  /** `s.trim()`: the contiguous piece of `s` left when the whitespace at
      both ends is removed. */
  function Trim(s: string): (r: string)
    ensures |r| <= |s|
    ensures exists a :: OccursAt(s, r, a)
    ensures r == [] || (!IsSpace(r[0]) && !IsSpace(r[|r| - 1]))
  {
    var t := TrimStart(s);
    var r := TrimEnd(t);
    var a := |s| - |t|;
    assert t == s[a..];
    assert OccursAt(s, r, a);
    r
  }

  /** A string with no whitespace at its ends is its own trim. */
  lemma TrimOfTrimmed(s: string)
    requires s == [] || (!IsSpace(s[0]) && !IsSpace(s[|s| - 1]))
    ensures Trim(s) == s
  {
  }

  lemma TrimStartSpace(s: string)
    ensures TrimStart(" " + s) == TrimStart(s)
  {
    assert (" " + s)[1..] == s;
  }

  lemma TrimEndSpace(s: string)
    ensures TrimEnd(s + " ") == TrimEnd(s)
  {
    assert (s + " ")[..|s|] == s;
  }

  /** Squashing separator runs, on a string that starts with a
      non-separator (or is empty), yields the join of the runs followed by
      at most one space. */
  lemma {:induction false} SquashTrailing(t: string, sep: char -> bool)
    requires t == [] || !sep(t[0])
    ensures var x := SquashRuns(t, sep); var j := JoinSpace(Runs(t, sep));
      x == j || x == j + " "
    decreases |t|
  {
    if t != [] {
      var n := Span(t, sep, false);
      var w := t[..n];
      var r := t[n..];
      assert SquashRuns(t, sep) == w + SquashRuns(r, sep);
      assert Runs(t, sep) == [w] + Runs(r, sep);
      if r == [] {
        assert JoinSpace([w]) == w;
      } else {
        var m := Span(r, sep, true);
        var r' := r[m..];
        assert SquashRuns(r, sep) == " " + SquashRuns(r', sep);
        assert Runs(r, sep) == Runs(r', sep);
        SquashTrailing(r', sep);
        var x' := SquashRuns(r', sep);
        var ws' := Runs(r', sep);
        var j' := JoinSpace(ws');
        SquashStep(w, x', j');
        if r' == [] {
          assert JoinSpace([w]) == w;
        } else {
          assert ws' != [];
          JoinCons(w, ws', " ");
        }
      }
    }
  }

  lemma SquashStep(w: string, x': string, j': string)
    requires x' == j' || x' == j' + " "
    ensures var x := w + (" " + x'); x == w + " " + j' || x == w + " " + j' + " "
    ensures j' == [] ==> w + (" " + x') == w + " " || w + (" " + x') == w + " " + " "
  {
  }

  /** Squashing separator runs yields the join of the runs with at
      most one space added at either end. */
  lemma SquashPadsJoin(s: string, sep: char -> bool)
    ensures var x := SquashRuns(s, sep); var j := JoinSpace(Runs(s, sep));
      x == j || x == j + " " || x == " " + j || x == " " + j + " "
  {
    if s != [] && sep(s[0]) {
      SquashTrailing(s[Span(s, sep, true)..], sep);
    } else {
      SquashTrailing(s, sep);
    }
  }

  /** Trimming removes the padding around a join with no whitespace at
      its ends. */
  lemma TrimPadded(x: string, j: string)
    requires x == j || x == j + " " || x == " " + j || x == " " + j + " "
    requires j == [] || (!IsSpace(j[0]) && !IsSpace(j[|j| - 1]))
    ensures Trim(x) == j
  {
    TrimStartSpace(j);
    TrimStartSpace(j + " ");
    TrimEndSpace(j);
    if j == [] {
      assert TrimStart(" ") == [];
      assert TrimStart(" " + " ") == [];
    } else {
      assert (" " + j + " ") == " " + (j + " ");
      assert TrimStart(j + " ") == j + " ";
    }
  }

  /** A single-space join of words without whitespace has no whitespace at
      either end. */
  lemma {:induction false} JoinOfWordsEnds(ws: seq<string>)
    requires AreWords(ws, IsSpace)
    ensures var j := JoinSpace(ws); j == [] || (!IsSpace(j[0]) && !IsSpace(j[|j| - 1]))
    decreases |ws|
  {
    if |ws| == 1 {
      assert JoinSpace(ws) == ws[0];
    } else if |ws| > 1 {
      var w := ws[0];
      var rest := JoinSpace(ws[1..]);
      assert AreWords(ws[1..], IsSpace);
      JoinOfWordsEnds(ws[1..]);
      JoinFirst(ws[1..], " ");
      var j := JoinSpace(ws);
      assert j == w + " " + rest;
      assert j[0] == w[0];
      assert j[|j| - 1] == rest[|rest| - 1];
    }
  }

  // ---------------------------------------------------------------------
  // indexOf

  /** `pat` occurs in `s` starting at index `i`. */
  predicate OccursAt(s: string, pat: string, i: int)
  {
    0 <= i && i + |pat| <= |s| && s[i..i + |pat|] == pat
  }

  /** `s.indexOf(pat)`, with `None` for `-1`. */
  function IndexOf(s: string, pat: string): (r: Option<nat>)
    ensures r.Some? ==> OccursAt(s, pat, r.value)
    ensures r.Some? ==> forall j :: 0 <= j < r.value ==> !OccursAt(s, pat, j)
    ensures r.None? ==> forall j :: !OccursAt(s, pat, j)
  {
    IndexOfFrom(s, pat, 0)
  }

  function IndexOfFrom(s: string, pat: string, from: nat): (r: Option<nat>)
    requires from <= |s| + 1
    ensures r.Some? ==> from <= r.value && OccursAt(s, pat, r.value)
    ensures r.Some? ==> forall j :: from <= j < r.value ==> !OccursAt(s, pat, j)
    ensures r.None? ==> forall j :: from <= j ==> !OccursAt(s, pat, j)
    decreases |s| + 1 - from
  {
    if from + |pat| > |s| then None
    else if s[from..from + |pat|] == pat then Some(from)
    else IndexOfFrom(s, pat, from + 1)
  }

  /** `s.includes(pat)`, or the regular expression `/pat/.test(s)` for a
      pattern without special characters. */
  predicate Contains(s: string, pat: string)
  {
    IndexOf(s, pat).Some?
  }

  // ---------------------------------------------------------------------
  // Decimal numbers

  function DigitChar(d: nat): (c: char)
    requires d < 10
    ensures IsDigit(c)
  {
    ('0' as int + d) as char
  }

  function DigitValue(c: char): (d: nat)
    requires IsDigit(c)
    ensures d < 10
  {
    c as int - '0' as int
  }

  predicate AllDigits(s: string)
  {
    forall i :: 0 <= i < |s| ==> IsDigit(s[i])
  }

  /** `/\d/.test(s)`. */
  predicate HasDigit(s: string)
  {
    exists i :: 0 <= i < |s| && IsDigit(s[i])
  }

  /** `String(n)` for a natural number: its decimal digits, no leading zero. */
  function NatToString(n: nat): (r: string)
    ensures r != [] && AllDigits(r)
    ensures |r| > 1 ==> r[0] != '0'
  {
    if n < 10 then [DigitChar(n)] else NatToString(n / 10) + [DigitChar(n % 10)]
  }

  /** The number a string of decimal digits denotes. */
  function DigitsValue(s: string): nat
    requires AllDigits(s)
  {
    if s == [] then 0 else 10 * DigitsValue(s[..|s| - 1]) + DigitValue(s[|s| - 1])
  }

  /** Reading back the rendering of a number gives the number. */
  lemma {:induction false} NatToStringRoundTrip(n: nat)
    ensures DigitsValue(NatToString(n)) == n
  {
    if n >= 10 {
      NatToStringRoundTrip(n / 10);
      var s := NatToString(n);
      assert s[..|s| - 1] == NatToString(n / 10);
    }
  }

  /** The leading digit bounds the value from below. */
  lemma {:induction false} DigitsValueAtLeastFirst(s: string)
    requires s != [] && AllDigits(s)
    ensures DigitsValue(s) >= DigitValue(s[0])
    decreases |s|
  {
    if |s| > 1 {
      var init := s[..|s| - 1];
      assert init[0] == s[0];
      DigitsValueAtLeastFirst(init);
    }
  }

  /** A leading zero does not change the value. */
  lemma {:induction false} DigitsValueLeadingZero(s: string)
    requires AllDigits(s)
    ensures AllDigits("0" + s) && DigitsValue("0" + s) == DigitsValue(s)
    decreases |s|
  {
    if s != [] {
      var init := s[..|s| - 1];
      DigitsValueLeadingZero(init);
      assert ("0" + s)[..|"0" + s| - 1] == "0" + init;
    }
  }

  /** Rendering the value of a digit string without a leading zero gives the
      string back. */
  lemma {:induction false} DigitsRoundTrip(s: string)
    requires s != [] && AllDigits(s)
    requires |s| > 1 ==> s[0] != '0'
    ensures NatToString(DigitsValue(s)) == s
    decreases |s|
  {
    var last := s[|s| - 1];
    if |s| == 1 {
      assert [DigitChar(DigitValue(last))] == s;
    } else {
      var init := s[..|s| - 1];
      assert init[0] == s[0];
      DigitsRoundTrip(init);
      DigitsValueAtLeastFirst(init);
      var v := DigitsValue(init);
      var n := 10 * v + DigitValue(last);
      assert n / 10 == v && n % 10 == DigitValue(last);
      assert DigitChar(DigitValue(last)) == last;
      assert init + [last] == s;
    }
  }

  /** `s.replace(/,/g, "")`. */
  function RemoveCommas(s: string): (r: string)
    ensures |r| <= |s|
    ensures forall i :: 0 <= i < |r| ==> r[i] != ','
    ensures forall c :: c != ',' ==> multiset(r)[c] == multiset(s)[c]
  {
    if s == [] then []
    else
      assert s == [s[0]] + s[1..];
      (if s[0] == ',' then [] else [s[0]]) + RemoveCommas(s[1..])
  }
}
