/** The per-node annotation decision, the split-and-splice that inserts the
    annotation, the chip text, and the node filter of the page scan
    (src/annotate.js). A text node is seen through its `Site`: the elements
    above it, nearest first, and the child list of its parent. */
module Annotate {
  import opened Wrappers
  import opened Text
  import opened Util
  import opened Seqs
  import opened Records
  import opened JsMaps
  import opened Extract

  // ---------------------------------------------------------------------
  // Resolution

  /** `addCommonAliases` and `keyFor`, whose definitions are not part of
      this model: the aliases to try for a normalised name, in order, and
      the lookup key of one alias. */
  datatype Aliasing = Aliasing(expand: string -> seq<string>, keyFor: string -> string)

  /** `resolveCandidate(candidate, lookup)`: the record of the first alias
      of the normalised candidate whose key the lookup holds, or `None` when
      it holds none of them. */
  function ResolveCandidate(cand: string, lookup: JsMap<HardwareRecord>, al: Aliasing): (r: Option<HardwareRecord>)
    ensures var aliases := al.expand(NormalizeName(cand));
      && (r.None? <==> forall k :: 0 <= k < |aliases| ==> !Has(lookup, al.keyFor(aliases[k])))
      && (r.Some? ==>
            exists k :: 0 <= k < |aliases| && r == Get(lookup, al.keyFor(aliases[k]))
                        && forall l :: 0 <= l < k ==> !Has(lookup, al.keyFor(aliases[l])))
  {
    ResolveAliases(al.expand(NormalizeName(cand)), lookup, al.keyFor)
  }

  /** The loop of `resolveCandidate` over the aliases. */
  function ResolveAliases(aliases: seq<string>, lookup: JsMap<HardwareRecord>, keyFor: string -> string): (r: Option<HardwareRecord>)
    ensures r.None? <==> forall k :: 0 <= k < |aliases| ==> !Has(lookup, keyFor(aliases[k]))
    ensures r.Some? ==>
      exists k :: 0 <= k < |aliases| && r == Get(lookup, keyFor(aliases[k]))
                  && forall l :: 0 <= l < k ==> !Has(lookup, keyFor(aliases[l]))
  {
    var present := a => Has(lookup, keyFor(a));
    match FindFirst(aliases, present)
    case None => None
    case Some(k) =>
      assert forall l :: 0 <= l < k ==> !present(aliases[l]);
      Get(lookup, keyFor(aliases[k]))
  }

  /** The position of the first candidate that resolves. */
  function FirstResolving(cands: seq<string>, lookup: JsMap<HardwareRecord>, al: Aliasing): (r: Option<nat>)
    ensures r.None? <==> forall k :: 0 <= k < |cands| ==> ResolveCandidate(cands[k], lookup, al).None?
    ensures r.Some? ==> r.value < |cands| && ResolveCandidate(cands[r.value], lookup, al).Some?
    ensures r.Some? ==> forall l :: 0 <= l < r.value ==> ResolveCandidate(cands[l], lookup, al).None?
  {
    FindFirst(cands, c => ResolveCandidate(c, lookup, al).Some?)
  }

  // ---------------------------------------------------------------------
  // The document

  datatype Element = Element(tag: string, classes: seq<string>)

  /** A DOM node: a text node, an element with its children, or any other
      kind of node. */
  datatype Node = TextNode(value: string) | Elem(el: Element, children: seq<Node>) | Other

  /** Where a node sits: `ancestors[0]` is its parent element, if it has
      one, followed by that element's ancestors; `siblings` is its parent's
      child list, in which it is at `index`. */
  datatype Site = Site(ancestors: seq<Element>, siblings: seq<Node>, index: nat)

  /** `ANNO_CLASS`. */
  const AnnoClass: string := "spa-ann"

  const ChipClass: string := "spa-chip"

  const SkipClass: string := "spa-skip"

  /** `parent.closest(".spa-ann")` finds an element. */
  predicate InsideAnnotation(ancestors: seq<Element>)
  {
    exists k :: 0 <= k < |ancestors| && AnnoClass in ancestors[k].classes
  }

  /** The text of a node, as `textContent` reads it. */
  function TextOf(n: Node): string
  {
    match n
    case TextNode(v) => v
    case Elem(_, children) => TextOfAll(children)
    case Other => []
  }

  function TextOfAll(ns: seq<Node>): string
  {
    if ns == [] then [] else TextOf(ns[0]) + TextOfAll(ns[1..])
  }

  lemma {:induction false} TextOfAllAppend(a: seq<Node>, b: seq<Node>)
    ensures TextOfAll(a + b) == TextOfAll(a) + TextOfAll(b)
    decreases |a|
  {
    if a == [] {
      assert a + b == b;
    } else {
      assert (a + b)[0] == a[0];
      assert (a + b)[1..] == a[1..] + b;
      TextOfAllAppend(a[1..], b);
    }
  }

  // ---------------------------------------------------------------------
  // The chip

  /** `item.score >= 1000 ? `${Math.round(item.score / 1000)}k` :
      String(item.score)`: the thousands rounded half up, with a "k", from
      1000 on; the number itself below; "NaN" for `NaN`. */
  function ScoreShort(score: JsNumber): (r: string)
    ensures r != []
  {
    match score
    case NaN => "NaN"
    case Int(n) => if n >= 1000 then NatToString((n + 500) / 1000) + "k" else NatToString(n)
  }

  /** From 1000 on, the short score is the nearest whole number of
      thousands, a half rounding up. */
  lemma ScoreShortRounds(n: nat)
    requires n >= 1000
    ensures exists m: nat :: ScoreShort(Int(n)) == NatToString(m) + "k" && 1000 * m - 500 <= n < 1000 * m + 500
  {
    var m := (n + 500) / 1000;
    assert ScoreShort(Int(n)) == NatToString(m) + "k";
  }

  /** Below 1000 the short score reads back as the score. */
  lemma ScoreShortSmall(n: nat)
    requires n < 1000
    ensures ToNumber(ScoreShort(Int(n))) == Int(n)
  {
    ToNumberOfRendering(n);
  }

  /** The pieces of the chip: the short score; "ranked r" when the rank is
      present and not zero; the price when present and not empty. */
  function ChipPieces(item: HardwareRecord): (ps: seq<string>)
    ensures 1 <= |ps| <= 3 && ps[0] == ScoreShort(item.score)
    ensures forall k :: 0 <= k < |ps| ==> ps[k] != []
    ensures |ps| == 1 + (if item.rank.Some? && item.rank.value != 0 then 1 else 0)
                      + (if item.price.Some? && item.price.value != [] then 1 else 0)
    ensures item.rank.Some? && item.rank.value != 0 ==> ps[1] == "ranked " + NatToString(item.rank.value)
    ensures item.price.Some? && item.price.value != [] ==> ps[|ps| - 1] == item.price.value
  {
    var rank := if item.rank.Some? && item.rank.value != 0 then ["ranked " + NatToString(item.rank.value)] else [];
    var price := if item.price.Some? && item.price.value != [] then [item.price.value] else [];
    [ScoreShort(item.score)] + rank + price
  }

  /** `` ` (${pieces.join(", ")})` ``. */
  function ChipText(item: HardwareRecord): (r: string)
    ensures |r| >= 3 && r[..2] == " (" && r[|r| - 1] == ')'
  {
    " (" + Join(ChipPieces(item), ", ") + ")"
  }

  /** The chip's form for every record: after a space and an opening
      parenthesis, the short score; then ", ranked " and the rank when it
      is present and not zero; then ", " and the price when it is present
      and not empty; then the closing parenthesis. */
  lemma ChipTextForm(item: HardwareRecord)
    ensures ChipText(item) ==
      " (" + ScoreShort(item.score)
      + (if item.rank.Some? && item.rank.value != 0 then ", ranked " + NatToString(item.rank.value) else "")
      + (if item.price.Some? && item.price.value != [] then ", " + item.price.value else "")
      + ")"
  {
    var s := ScoreShort(item.score);
    var hasRank := item.rank.Some? && item.rank.value != 0;
    var hasPrice := item.price.Some? && item.price.value != [];
    var rankPieces := if hasRank then ["ranked " + NatToString(item.rank.value)] else [];
    var pricePieces := if hasPrice then [item.price.value] else [];
    assert ChipPieces(item) == [s] + rankPieces + pricePieces;
    JoinPieces(s, rankPieces, pricePieces, ", ");
    var rk := if hasRank then ", " + rankPieces[0] else "";
    var pr := if hasPrice then ", " + pricePieces[0] else "";
    ChipTextOfJoin(ChipText(item), Join(ChipPieces(item), ", "), s, rk, pr);
    if hasRank {
      assert ", " + rankPieces[0] == ", ranked " + NatToString(item.rank.value);
    }
  }

  /** Joining a first piece and at most two optional ones. */
  lemma JoinPieces(s: string, a: seq<string>, b: seq<string>, glue: string)
    requires |a| <= 1 && |b| <= 1
    ensures Join([s] + a + b, glue)
      == s + (if a == [] then "" else glue + a[0]) + (if b == [] then "" else glue + b[0])
  {
    if a != [] && b != [] {
      JoinPiecesBoth(s, a, b, glue);
    } else if a != [] {
      JoinPiecesOne(s, a, b, glue);
    } else if b != [] {
      JoinPiecesOne(s, b, a, glue);
      assert [s] + a + b == [s] + b + a;
    } else {
      assert [s] + a + b == [s];
    }
  }

  lemma JoinPiecesBoth(s: string, a: seq<string>, b: seq<string>, glue: string)
    requires |a| == 1 && |b| == 1
    ensures Join([s] + a + b, glue) == s + (glue + a[0]) + (glue + b[0])
  {
    assert [s] + a + b == [s, a[0], b[0]];
    JoinThree(s, a[0], b[0], glue);
    GlueEach(s, glue, a[0], b[0]);
  }

  lemma JoinPiecesOne(s: string, a: seq<string>, b: seq<string>, glue: string)
    requires |a| == 1 && b == []
    ensures Join([s] + a + b, glue) == s + (glue + a[0])
  {
    assert [s] + a + b == [s, a[0]];
    JoinTwo(s, a[0], glue);
  }

  lemma ChipTextOfJoin(chip: string, j: string, s: string, rk: string, pr: string)
    requires chip == " (" + j + ")" && j == s + rk + pr
    ensures chip == " (" + s + rk + pr + ")"
  {
  }

  lemma GlueEach(s: string, glue: string, a: string, b: string)
    ensures s + glue + a + glue + b == s + (glue + a) + (glue + b)
  {
  }

  lemma JoinTwo(a: string, b: string, glue: string)
    ensures Join([a, b], glue) == a + glue + b
  {
    assert [a, b][1..] == [b];
  }

  /** Score 27000, rank 150 and price "$350" give " (27k, ranked 150, $350)". */
  lemma ChipExample(name: string, key: string, value: Option<string>)
    ensures ChipText(HardwareRecord(name, key, Int(27000), Some(150), value, Some("$350")))
      == " (27k, ranked 150, $350)"
  {
    var item := HardwareRecord(name, key, Int(27000), Some(150), value, Some("$350"));
    ExamplePieces(item);
    JoinThree("27k", "ranked 150", "$350", ", ");
    ExampleChipString(Join(ChipPieces(item), ", "));
  }

  lemma ExampleChipString(j: string)
    requires j == "27k" + ", " + "ranked 150" + ", " + "$350"
    ensures " (" + j + ")" == " (27k, ranked 150, $350)"
  {
  }

  lemma ExamplePieces(item: HardwareRecord)
    requires item.score == Int(27000) && item.rank == Some(150) && item.price == Some("$350")
    ensures ChipPieces(item) == ["27k", "ranked 150", "$350"]
  {
    assert NatToString(27) == "27";
    assert NatToString(150) == "150";
    assert ScoreShort(item.score) == "27k";
    var ps := ChipPieces(item);
    assert |ps| == 3;
    assert ps[0] == "27k";
    assert ps[1] == "ranked " + NatToString(150) == "ranked 150";
    assert ps[2] == "$350";
  }

  lemma JoinThree(a: string, b: string, c: string, glue: string)
    ensures Join([a, b, c], glue) == a + glue + b + glue + c
  {
    assert [a, b, c][1..] == [b, c];
    assert [b, c][1..] == [c];
    assert Join([b, c], glue) == b + glue + c;
    Regroup3(Join([a, b, c], glue), a + glue, Join([b, c], glue), [], b, glue, c);
  }

  // ---------------------------------------------------------------------
  // injectAnnotation

  /** `full.slice(0, idx)` and `full.slice(idx + fragment.length)` for the
      first occurrence `idx` of the fragment, or `None` when
      `full.indexOf(fragment)` is -1. */
  function SplitAtFirst(full: string, frag: string): (r: Option<(string, string)>)
    ensures r.None? <==> forall j :: !OccursAt(full, frag, j)
    ensures r.Some? ==> r.value.0 + frag + r.value.1 == full
    ensures r.Some? ==> forall j :: 0 <= j < |r.value.0| ==> !OccursAt(full, frag, j)
    ensures r.Some? && frag != [] ==> |r.value.0| < |full| && |r.value.1| < |full|
  {
    match IndexOf(full, frag)
    case None => None
    case Some(idx) =>
      var before := full[..idx];
      var after := full[idx + |frag|..];
      assert full[idx..idx + |frag|] == frag;
      assert before + frag + after == full;
      Some((before, after))
  }

  /** The children that setting `textContent` to `s` gives an element. */
  function TextChildren(s: string): seq<Node>
  {
    if s == [] then [] else [TextNode(s)]
  }

  /** The annotation for `fragment`: a "spa-ann" span holding a span with
      the fragment and a "spa-chip" span with the chip text. */
  function Wrapper(frag: string, item: HardwareRecord): (w: Node)
    ensures w.Elem? && AnnoClass in w.el.classes
    ensures TextOf(w) == frag + ChipText(item)
    ensures |w.children| == 2 && w.children[0].Elem? && w.children[1].Elem?
    ensures TextOf(w.children[0]) == frag
    ensures ChipClass in w.children[1].el.classes && TextOf(w.children[1]) == ChipText(item)
  {
    var nameSpan := Elem(Element("SPAN", []), TextChildren(frag));
    var meta := Elem(Element("SPAN", [ChipClass]), TextChildren(ChipText(item)));
    var w := Elem(Element("SPAN", [AnnoClass]), [nameSpan, meta]);
    assert [nameSpan, meta][1..] == [meta];
    assert TextOfAll([nameSpan, meta]) == TextOf(nameSpan) + TextOfAll([meta]);
    assert TextOfAll([meta]) == TextOf(meta) by {
      assert [meta][1..] == [];
    }
    assert TextOfAll(TextChildren(frag)) == frag by {
      if frag != [] {
        assert [TextNode(frag)][1..] == [];
      }
    }
    assert TextOfAll(TextChildren(ChipText(item))) == ChipText(item) by {
      assert [TextNode(ChipText(item))][1..] == [];
    }
    w
  }

  /** `injectAnnotation(textNode, fragment, item)` on the child list of the
      text node's parent: the text node at `index` is replaced by the text
      before the first occurrence of the fragment, the annotation and the
      text after it; nothing changes when the fragment does not occur. */
  function InjectAnnotation(siblings: seq<Node>, index: nat, frag: string, item: HardwareRecord): (r: seq<Node>)
    requires index < |siblings| && siblings[index].TextNode?
    ensures SplitAtFirst(siblings[index].value, frag).None? ==> r == siblings
    ensures SplitAtFirst(siblings[index].value, frag).Some? ==>
      var (before, after) := SplitAtFirst(siblings[index].value, frag).value;
      && |r| == |siblings| + 2
      && (forall k :: 0 <= k < index ==> r[k] == siblings[k])
      && r[index] == TextNode(before) && r[index + 1] == Wrapper(frag, item) && r[index + 2] == TextNode(after)
      && (forall k :: index < k < |siblings| ==> r[k + 2] == siblings[k])
  {
    match SplitAtFirst(siblings[index].value, frag)
    case None => siblings
    case Some((before, after)) =>
      siblings[..index] + [TextNode(before), Wrapper(frag, item), TextNode(after)] + siblings[index + 1..]
  }

  /** The splice keeps the parent's text, with the chip text added right
      after the first occurrence of the fragment. */
  lemma InjectKeepsText(siblings: seq<Node>, index: nat, frag: string, item: HardwareRecord)
    requires index < |siblings| && siblings[index].TextNode?
    requires SplitAtFirst(siblings[index].value, frag).Some?
    ensures var split := SplitAtFirst(siblings[index].value, frag).value;
      && TextOfAll(InjectAnnotation(siblings, index, frag, item))
           == TextOfAll(siblings[..index]) + split.0 + frag + ChipText(item) + split.1 + TextOfAll(siblings[index + 1..])
      && TextOfAll(siblings)
           == TextOfAll(siblings[..index]) + split.0 + frag + split.1 + TextOfAll(siblings[index + 1..])
  {
    var split := SplitAtFirst(siblings[index].value, frag).value;
    InjectedText(siblings, index, frag, item, split.0, split.1);
    SiblingsText(siblings, index);
    var p, q := TextOfAll(siblings[..index]), TextOfAll(siblings[index + 1..]);
    Regroup3(TextOfAll(siblings), p, siblings[index].value, q, split.0, frag, split.1);
  }

  lemma InjectedText(siblings: seq<Node>, index: nat, frag: string, item: HardwareRecord, before: string, after: string)
    requires index < |siblings| && siblings[index].TextNode?
    requires SplitAtFirst(siblings[index].value, frag) == Some((before, after))
    ensures TextOfAll(InjectAnnotation(siblings, index, frag, item))
      == TextOfAll(siblings[..index]) + before + frag + ChipText(item) + after + TextOfAll(siblings[index + 1..])
  {
    var pre := siblings[..index];
    var post := siblings[index + 1..];
    var w := Wrapper(frag, item);
    var mid := [TextNode(before), w, TextNode(after)];
    TextOfThree(TextNode(before), w, TextNode(after));
    TextOfSplice(pre, mid, post);
    assert InjectAnnotation(siblings, index, frag, item) == pre + mid + post;
    var p, q := TextOfAll(pre), TextOfAll(post);
    assert TextOf(TextNode(before)) == before && TextOf(TextNode(after)) == after;
    RegroupMid(TextOfAll(mid), before, TextOf(w), after, frag, ChipText(item));
    Regroup4(TextOfAll(pre + mid + post), p, TextOfAll(mid), q, before, frag, ChipText(item), after);
  }

  lemma SiblingsText(siblings: seq<Node>, index: nat)
    requires index < |siblings|
    ensures TextOfAll(siblings) == TextOfAll(siblings[..index]) + TextOf(siblings[index]) + TextOfAll(siblings[index + 1..])
  {
    var rest := siblings[index..];
    assert siblings[..index] + rest == siblings;
    TextOfAllAppend(siblings[..index], rest);
    assert rest[0] == siblings[index];
    assert rest[1..] == siblings[index + 1..];
    var a, b, c := TextOfAll(siblings[..index]), TextOf(siblings[index]), TextOfAll(siblings[index + 1..]);
    assert TextOfAll(rest) == b + c;
    Regroup2(TextOfAll(siblings), a, TextOfAll(rest), b, c);
  }

  lemma TextOfThree(a: Node, b: Node, c: Node)
    ensures TextOfAll([a, b, c]) == TextOf(a) + TextOf(b) + TextOf(c)
  {
    assert [a, b, c][1..] == [b, c];
    assert [b, c][1..] == [c];
    assert [c][1..] == [];
    assert TextOfAll([c]) == TextOf(c) + TextOfAll([]);
    assert TextOfAll([b, c]) == TextOf(b) + TextOfAll([c]);
    assert TextOfAll([a, b, c]) == TextOf(a) + TextOfAll([b, c]);
  }

  lemma TextOfSplice(pre: seq<Node>, mid: seq<Node>, post: seq<Node>)
    ensures TextOfAll(pre + mid + post) == TextOfAll(pre) + TextOfAll(mid) + TextOfAll(post)
  {
    TextOfAllAppend(pre + mid, post);
    TextOfAllAppend(pre, mid);
  }

  /** `a + m` with `m` split into two parts, regrouped. */
  lemma Regroup2(x: string, a: string, m: string, b1: string, b2: string)
    requires x == a + m && m == b1 + b2
    ensures x == a + b1 + b2
  {
  }

  /** `a + m + c` with `m` split into two parts, regrouped. */
  lemma RegroupMid(x: string, a: string, m: string, c: string, b1: string, b2: string)
    requires x == a + m + c && m == b1 + b2
    ensures x == a + b1 + b2 + c
  {
  }

  /** `a + m + c` with `m` split into three parts, regrouped. */
  lemma Regroup3(x: string, a: string, m: string, c: string, b1: string, b2: string, b3: string)
    requires x == a + m + c && m == b1 + b2 + b3
    ensures x == a + b1 + b2 + b3 + c
  {
  }

  /** `a + m + c` with `m` split into four parts, regrouped. */
  lemma Regroup4(x: string, a: string, m: string, c: string, b1: string, b2: string, b3: string, b4: string)
    requires x == a + m + c && m == b1 + b2 + b3 + b4
    ensures x == a + b1 + b2 + b3 + b4 + c
  {
  }

  // ---------------------------------------------------------------------
  // annotateNode

  /** The guard of `annotateNode`: a non-empty text node that passes the
      pre-filter and has a parent element not inside an annotation. */
  predicate Eligible(site: Site)
    requires site.index < |site.siblings|
  {
    var node := site.siblings[site.index];
    && node.TextNode?
    && node.value != []
    && IsLikelyHardwareText(node.value)
    && site.ancestors != []
    && !InsideAnnotation(site.ancestors)
  }

  /** `annotateNode(node, lookup)`, as the new child list of the node's
      parent: when the guard passes, the first candidate, longest first,
      that resolves is handed to `injectAnnotation`, and no other. */
  function AnnotateNode(site: Site, lookup: JsMap<HardwareRecord>, al: Aliasing): (r: seq<Node>)
    requires site.index < |site.siblings|
    ensures !Eligible(site) ==> r == site.siblings
    ensures Eligible(site) ==>
      var cands := ExtractCandidates(site.siblings[site.index].value);
      match FirstResolving(cands, lookup, al)
      case None => r == site.siblings
      case Some(k) => r == InjectAnnotation(site.siblings, site.index, cands[k], ResolveCandidate(cands[k], lookup, al).value)
  {
    var node := site.siblings[site.index];
    if !node.TextNode? then site.siblings
    else if node.value == [] || !IsLikelyHardwareText(node.value) then site.siblings
    else if site.ancestors == [] || InsideAnnotation(site.ancestors) then site.siblings
    else
      var cands := ExtractCandidates(node.value);
      match FirstResolving(cands, lookup, al)
      case None => site.siblings
      case Some(k) =>
        InjectAnnotation(site.siblings, site.index, cands[k], ResolveCandidate(cands[k], lookup, al).value)
  }

  /** Among candidates, a longer one that resolves always wins: every
      candidate strictly longer than the one annotated resolves to
      nothing. */
  lemma LongestResolvingWins(text: string, lookup: JsMap<HardwareRecord>, al: Aliasing)
    ensures var cands := ExtractCandidates(text);
      var first := FirstResolving(cands, lookup, al);
      first.Some? ==>
        forall l :: 0 <= l < |cands| && JsLength(cands[l]) > JsLength(cands[first.value]) ==> ResolveCandidate(cands[l], lookup, al).None?
  {
    var cands := ExtractCandidates(text);
    ResolvingIsLongest(cands, lookup, al);
  }

  lemma ResolvingIsLongest(cands: seq<string>, lookup: JsMap<HardwareRecord>, al: Aliasing)
    requires NonIncreasingLength(cands, JsLength)
    ensures var first := FirstResolving(cands, lookup, al);
      first.Some? ==>
        forall l :: 0 <= l < |cands| && JsLength(cands[l]) > JsLength(cands[first.value]) ==> ResolveCandidate(cands[l], lookup, al).None?
  {
    if FirstResolving(cands, lookup, al).Some? {
      FirstMatchIsLongest(cands, JsLength, c => ResolveCandidate(c, lookup, al).Some?);
    }
  }

  /** When the first resolving candidate does not occur in the text as
      written (its tokens were separated by something other than one
      space), the node is left unchanged, even if a later candidate
      resolves and occurs. */
  lemma StopsAtFirstResolving(site: Site, lookup: JsMap<HardwareRecord>, al: Aliasing)
    requires site.index < |site.siblings|
    ensures site.siblings[site.index].TextNode? ==>
      var text := site.siblings[site.index].value;
      var cands := ExtractCandidates(text);
      var first := FirstResolving(cands, lookup, al);
      first.Some? && !Contains(text, cands[first.value]) ==> AnnotateNode(site, lookup, al) == site.siblings
  {
  }

  /** A text node with an "spa-ann" element among its ancestors is left
      as it is, wherever it sits. */
  lemma InsideAnnotationLeftAlone(site: Site, lookup: JsMap<HardwareRecord>, al: Aliasing)
    requires site.index < |site.siblings|
    ensures InsideAnnotation(site.ancestors) ==> AnnotateNode(site, lookup, al) == site.siblings
  {
  }

  /** No text node inside an inserted annotation is annotated again: not
      the fragment under the name span (`j == 0`), not the chip text under
      the chip span (`j == 1`), whatever lies above the annotation. */
  lemma NoReentry(frag: string, item: HardwareRecord, above: seq<Element>, j: nat, i: nat,
                  lookup: JsMap<HardwareRecord>, al: Aliasing)
    ensures var w := Wrapper(frag, item);
      j < |w.children| && w.children[j].Elem? && i < |w.children[j].children| ==>
        var span := w.children[j];
        AnnotateNode(Site([span.el, w.el] + above, span.children, i), lookup, al) == span.children
  {
    var w := Wrapper(frag, item);
    if j < |w.children| && w.children[j].Elem? {
      var ancestors := [w.children[j].el, w.el] + above;
      assert AnnoClass in ancestors[1].classes;
      assert InsideAnnotation(ancestors);
    }
  }

  // ---------------------------------------------------------------------
  // The two keyword lists

  /** Every extractor keyword is a pre-filter keyword, and the pre-filter
      has two more: "Celeron" and "Pentium". */
  lemma KeywordListsNested()
    ensures forall k :: 0 <= k < |ExtractorKeywords| ==> ExtractorKeywords[k] in HardwareKeywords
    ensures "Celeron" in HardwareKeywords && "Celeron" !in ExtractorKeywords
    ensures "Pentium" in HardwareKeywords && "Pentium" !in ExtractorKeywords
  {
  }

  /** A fragment that passes the extractor's keyword test passes the
      pre-filter. */
  lemma QualifyingPassesPrefilter(frag: string)
    ensures Qualifies(frag) ==> IsLikelyHardwareText(frag)
  {
    if !Qualifies(frag) {
      return;
    }
    KeywordListsNested();
    var i, k :| 0 <= k < |ExtractorKeywords| && KeywordAt(frag, i, ExtractorKeywords[k], true);
    var kw := ExtractorKeywords[k];
    var h :| 0 <= h < |HardwareKeywords| && HardwareKeywords[h] == kw;
    assert KeywordAt(frag, i, HardwareKeywords[h], false);
  }

  /** "Celeron" alone passes the pre-filter but is not a candidate. */
  lemma CeleronPassesFilterOnly()
    ensures IsLikelyHardwareText("Celeron")
    ensures !Qualifies("Celeron")
  {
    var s := "Celeron";
    assert HardwareKeywords[5] == "Celeron";
    assert KeywordAt(s, 0, HardwareKeywords[5], false);
    assert forall i :: 0 <= i < |s| ==> IsWordChar(s[i]);
    forall i, k | 0 <= k < |ExtractorKeywords|
      ensures !KeywordAt(s, i, ExtractorKeywords[k], true)
    {
      var kw := ExtractorKeywords[k];
      if i == 0 && |kw| == 7 {
        assert kw == "GeForce";
        assert Lower(s)[0] != Lower(kw)[0];
        assert !EqualsIgnoreCase(s[0..7], kw);
      }
    }
  }

  // ---------------------------------------------------------------------
  // The page scan filter

  /** The tag names inside which text is not scanned. */
  const SkippedTags: seq<string> := ["SCRIPT", "STYLE", "NOSCRIPT", "TEXTAREA", "INPUT", "SELECT"]

  /** `acceptNode(node)` of `scanDocument`, for a text node with value
      `value` and parent element `parent`. */
  function AcceptNode(value: string, parent: Option<Element>): (r: bool)
    ensures r <==>
      && JsLength(Trim(value)) >= 3
      && parent.Some?
      && (forall t :: 0 <= t < |SkippedTags| ==> !Contains(parent.value.tag, SkippedTags[t]))
      && SkipClass !in parent.value.classes
  {
    if value == [] || JsLength(Trim(value)) < 3 then false
    else if parent.None? then false
    else if SkippedTagMatch(parent.value.tag, 0) then false
    else SkipClass !in parent.value.classes
  }

  /** `/(SCRIPT|...|SELECT)/.test(tag)`, from alternative `t` on. */
  function SkippedTagMatch(tag: string, t: nat): (r: bool)
    requires t <= |SkippedTags|
    ensures r <==> exists u :: t <= u < |SkippedTags| && Contains(tag, SkippedTags[u])
    decreases |SkippedTags| - t
  {
    if t == |SkippedTags| then false
    else Contains(tag, SkippedTags[t]) || SkippedTagMatch(tag, t + 1)
  }

  /** Length is counted in UTF-16 code units: a letter and an emoji make
      three, enough to be scanned. */
  lemma AcceptsLetterAndEmoji()
    ensures AcceptNode("a\U{1F600}", Some(Element("P", [])))
  {
    TrimOfTrimmed("a\U{1F600}");
    JsLengthOfEmoji();
    assert !SkippedTagMatch("P", 0);
  }

  /** The tag test matches anywhere in the tag name: a custom element named
      "X-SELECTOR" is skipped like a `select`. */
  lemma SkipsTagsContainingSelect(value: string, classes: seq<string>)
    ensures !AcceptNode(value, Some(Element("X-SELECTOR", classes)))
  {
    assert OccursAt("X-SELECTOR", SkippedTags[5], 2);
  }
}
