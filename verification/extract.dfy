/** Candidate extraction (`extractCandidates` in src/annotate.js): every
    window of one to eight consecutive whitespace-separated tokens, joined
    with single spaces, that contains a whole-word extractor keyword;
    without repetition, longest first. */
module Extract {
  import opened Text
  import opened Util
  import opened Seqs

  /** The keywords of the extractor's regular expression. Unlike the
      pre-filter's list it has neither "Celeron" nor "Pentium". */
  const ExtractorKeywords: seq<string> :=
    ["Intel", "AMD", "Ryzen", "Core", "Xeon", "Threadripper", "GeForce", "Radeon", "RTX", "GTX", "RX"]

  /** The most tokens a window spans. */
  const MaxWindow: nat := 8

  /** `text.split(/\s+/).filter(Boolean)`: the maximal runs of
      non-whitespace characters. */
  function Tokens(text: string): (ts: seq<string>)
    ensures forall k :: 0 <= k < |ts| ==> ts[k] != []
    ensures forall k, i :: 0 <= k < |ts| && 0 <= i < |ts[k]| ==> !IsSpace(ts[k][i])
  {
    Runs(text, IsSpace)
  }

  /** The tokens of any text, joined by single spaces, are the text with
      every whitespace run squashed to one space and the ends trimmed.
      With `TokensOfJoin` this fixes the tokens of every text. */
  lemma TokensJoined(text: string)
    ensures JoinSpace(Tokens(text)) == Trim(SquashRuns(text, IsSpace))
    ensures Tokens(text) == Tokens(Trim(SquashRuns(text, IsSpace)))
  {
    var ws := Tokens(text);
    SquashPadsJoin(text, IsSpace);
    JoinOfWordsEnds(ws);
    TrimPadded(SquashRuns(text, IsSpace), JoinSpace(ws));
    TokensOfJoin(ws);
  }

  /** Words joined by single spaces split back into the same words, in the
      same order. */
  lemma TokensOfJoin(ws: seq<string>)
    requires AreWords(ws, IsSpace)
    ensures Tokens(JoinSpace(ws)) == ws
  {
    RunsOfJoin(ws, IsSpace);
  }

  /** Token positions `[i, j)` form a window: one to eight tokens. */
  predicate IsWindow(tokens: seq<string>, i: int, j: int)
  {
    0 <= i < j <= |tokens| && j - i <= MaxWindow
  }

  /** `tokens.slice(i, j).join(" ")`. */
  function Window(tokens: seq<string>, i: nat, j: nat): string
    requires i <= j <= |tokens|
  {
    JoinSpace(tokens[i..j])
  }

  /** The test `/\b(Intel|...|RX)\b/i.test(frag)`. */
  predicate Qualifies(frag: string)
  {
    ContainsKeyword(frag, ExtractorKeywords, true)
  }

  /** The last end position of a window that starts at `i`. */
  function LastEnd(tokens: seq<string>, i: nat): nat
  {
    if |tokens| < i + MaxWindow then |tokens| else i + MaxWindow
  }

  /** Token span `p` comes before token span `q` in the order the loops
      visit them: by start, then by end. */
  predicate LexLess(p: (nat, nat), q: (nat, nat))
  {
    p.0 < q.0 || (p.0 == q.0 && p.1 < q.1)
  }

  /** The inner loop: the spans starting at `i` and ending at `j` or
      later, shortest first. */
  function SpansAt(tokens: seq<string>, i: nat, j: nat): (r: seq<(nat, nat)>)
    requires i < j
    ensures j <= LastEnd(tokens, i) ==> |r| == LastEnd(tokens, i) - j + 1
    ensures j > LastEnd(tokens, i) ==> r == []
    ensures forall k :: 0 <= k < |r| ==> j + k <= LastEnd(tokens, i) && r[k] == (i, j + k)
    decreases LastEnd(tokens, i) + 1 - j
  {
    if j > LastEnd(tokens, i) then []
    else [(i, j)] + SpansAt(tokens, i, j + 1)
  }

  /** Both loops from start position `i` on: the spans of every window
      starting at `i` or later, each once, in strictly increasing
      (start, end) order. */
  function Spans(tokens: seq<string>, i: nat): (r: seq<(nat, nat)>)
    ensures forall k :: 0 <= k < |r| ==> i <= r[k].0 && IsWindow(tokens, r[k].0, r[k].1)
    ensures forall a, b :: i <= a && IsWindow(tokens, a, b) ==> (a, b) in r
    ensures forall k, l :: 0 <= k < l < |r| ==> LexLess(r[k], r[l])
    decreases |tokens| - i
  {
    if i >= |tokens| then []
    else
      var here := SpansAt(tokens, i, i + 1);
      var rest := Spans(tokens, i + 1);
      forall a, b | i <= a && IsWindow(tokens, a, b)
        ensures (a, b) in here + rest
      {
        if a == i {
          assert here[b - i - 1] == (a, b);
        }
      }
      here + rest
  }

  /** The windows the two loops build from start position `i` on, in the
      order they build them: the `k`-th is the window of the `k`-th span. */
  function WindowsFrom(tokens: seq<string>, i: nat): (r: seq<string>)
    ensures |r| == |Spans(tokens, i)|
    ensures forall k :: 0 <= k < |r| ==>
      var sp := Spans(tokens, i)[k]; sp.0 <= sp.1 <= |tokens| && r[k] == Window(tokens, sp.0, sp.1)
    ensures forall x :: x in r <==> exists a, b :: i <= a && IsWindow(tokens, a, b) && x == Window(tokens, a, b)
  {
    var sp := Spans(tokens, i);
    var r := seq(|sp|, k requires 0 <= k < |sp| => Window(tokens, sp[k].0, sp[k].1));
    WindowsOfSpans(tokens, i, sp, r);
    r
  }

  lemma WindowsOfSpans(tokens: seq<string>, i: nat, sp: seq<(nat, nat)>, r: seq<string>)
    requires forall k :: 0 <= k < |sp| ==> i <= sp[k].0 && IsWindow(tokens, sp[k].0, sp[k].1)
    requires forall a, b :: i <= a && IsWindow(tokens, a, b) ==> (a, b) in sp
    requires |r| == |sp|
    requires forall k :: 0 <= k < |r| ==> IsWindow(tokens, sp[k].0, sp[k].1) && r[k] == Window(tokens, sp[k].0, sp[k].1)
    ensures forall x :: x in r <==> exists a, b :: i <= a && IsWindow(tokens, a, b) && x == Window(tokens, a, b)
  {
    forall x | x in r
      ensures exists a, b :: i <= a && IsWindow(tokens, a, b) && x == Window(tokens, a, b)
    {
      var k :| 0 <= k < |r| && r[k] == x;
      assert IsWindow(tokens, sp[k].0, sp[k].1);
    }
    forall a, b | i <= a && IsWindow(tokens, a, b)
      ensures Window(tokens, a, b) in r
    {
      var k :| 0 <= k < |sp| && sp[k] == (a, b);
      assert r[k] == Window(tokens, a, b);
    }
  }

  /** The windows that pass the keyword test, in visiting order. */
  function KeepQualifying(ws: seq<string>): (r: seq<string>)
    ensures forall x :: x in r <==> x in ws && Qualifies(x)
  {
    if ws == [] then []
    else
      var rest := KeepQualifying(ws[1..]);
      assert forall x :: x in ws <==> x == ws[0] || x in ws[1..];
      Kept(ws[0]) + rest
  }

  /** What the filter keeps of one window. */
  function Kept(w: string): seq<string>
  {
    if Qualifies(w) then [w] else []
  }

  /** The filter keeps order: it distributes over concatenation, and of a
      single window keeps the window exactly when it qualifies. */
  lemma {:induction false} KeepQualifyingAppend(a: seq<string>, b: seq<string>)
    ensures KeepQualifying(a + b) == KeepQualifying(a) + KeepQualifying(b)
    ensures |a| == 1 ==> KeepQualifying(a) == (if Qualifies(a[0]) then a else [])
    decreases |a|
  {
    if a == [] {
      assert a + b == b;
    } else {
      var ab := a + b;
      assert ab[0] == a[0];
      assert ab[1..] == a[1..] + b;
      KeepQualifyingAppend(a[1..], b);
      assert KeepQualifying(ab) == Kept(a[0]) + (KeepQualifying(a[1..]) + KeepQualifying(b));
      assert KeepQualifying(a) == Kept(a[0]) + KeepQualifying(a[1..]);
      AppendAssoc(Kept(a[0]), KeepQualifying(a[1..]), KeepQualifying(b));
      if |a| == 1 {
        assert a[1..] == [];
      }
    }
  }

  /** `frag` is a candidate of `text`: a window of its tokens that passes
      the keyword test. */
  ghost predicate IsCandidate(text: string, frag: string)
  {
    var tokens := Tokens(text);
    Qualifies(frag) && exists a, b :: IsWindow(tokens, a, b) && frag == Window(tokens, a, b)
  }

  /** `Array.from(cands)`: the qualifying windows in order of first
      discovery, each once. */
  function Discovered(text: string): (r: seq<string>)
    ensures IsDedupOf(KeepQualifying(WindowsFrom(Tokens(text), 0)), r)
    ensures Distinct(r)
    ensures forall x :: x in r <==> IsCandidate(text, x)
  {
    var qualifying := KeepQualifying(WindowsFrom(Tokens(text), 0));
    DedupIsDedupOf(qualifying);
    Dedup(qualifying)
  }

  /** `extractCandidates(text)`. The result holds every candidate exactly
      once, longest first by JavaScript length (UTF-16 code units);
      candidates of equal length keep the order in which they were
      discovered. */
  function ExtractCandidates(text: string): (r: seq<string>)
    ensures forall x :: x in r <==> IsCandidate(text, x)
    ensures Distinct(r)
    ensures NonIncreasingLength(r, JsLength)
    ensures forall n: nat :: WithLength(r, n, JsLength) == WithLength(Discovered(text), n, JsLength)
  {
    var d := Discovered(text);
    var r := SortByLengthDesc(d, JsLength);
    PermutationKeepsDistinct(d, r);
    assert forall x :: x in r <==> x in multiset(r);
    assert forall x :: x in d <==> x in multiset(d);
    r
  }

  // ---------------------------------------------------------------------
  // Tokens separated by a tab

  /** A tab separates tokens like a space does, but the candidate joins
      them with a space: "AMD\tRX" has the candidate "AMD RX", which does
      not occur in it. */
  lemma TabSeparatedCandidate()
    ensures IsCandidate("AMD\tRX", "AMD RX")
    ensures !Contains("AMD\tRX", "AMD RX")
  {
    TabTokens();
    var tokens := Tokens("AMD\tRX");
    assert tokens[0..2] == ["AMD", "RX"];
    assert JoinSpace(["AMD", "RX"]) == "AMD" + " " + "RX";
    assert IsWindow(tokens, 0, 2) && Window(tokens, 0, 2) == "AMD RX";
    AmdRxQualifies();
    TabWindowAbsent();
  }

  lemma TabTokens()
    ensures Tokens("AMD\tRX") == ["AMD", "RX"]
  {
    TabLeadingWord();
    TabSkipsSpace();
    TabLastWord();
  }

  lemma TabLeadingWord()
    ensures Runs("AMD\tRX", IsSpace) == ["AMD"] + Runs("\tRX", IsSpace)
  {
    assert "AMD\tRX" == "AMD" + "\tRX";
    assert !IsSpace('A') && !IsSpace('M') && !IsSpace('D') && IsSpace('\t');
    RunsOfWord("AMD", "\tRX", IsSpace);
  }

  lemma TabSkipsSpace()
    ensures Runs("\tRX", IsSpace) == Runs("RX", IsSpace)
  {
    assert Span("\tRX", IsSpace, true) == 1;
    assert "\tRX"[1..] == "RX";
  }

  lemma TabLastWord()
    ensures Runs("RX", IsSpace) == ["RX"]
  {
    assert "RX" == "RX" + [];
    RunsOfWord("RX", [], IsSpace);
  }

  lemma AmdRxQualifies()
    ensures Qualifies("AMD RX")
  {
    assert ExtractorKeywords[1] == "AMD";
    assert "AMD RX"[0..3] == "AMD";
    assert KeywordAt("AMD RX", 0, ExtractorKeywords[1], true);
  }

  lemma TabWindowAbsent()
    ensures !Contains("AMD\tRX", "AMD RX")
  {
    var s, pat := "AMD\tRX", "AMD RX";
    assert s[0..6][3] != pat[3];
    assert forall j :: OccursAt(s, pat, j) ==> j == 0;
  }
}
