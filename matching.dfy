/** Hints and the two ways keystrokes select among them: label mode keeps the
    hints whose label starts with the typed letters, text mode keeps the hints
    whose lower-cased element text contains the typed text. */
module Matching {
  import opened Collections
  import opened Labels
  import opened Text
  import opened Dom

  /** One entry of `this.hints`: the element, its label (`text`) and the
      lower-cased snapshot of its text content (`elementText`). The marker's
      display state is kept beside the hint by the manager. */
  datatype Hint = Hint(element: Element, text: string, elementText: string)

  /** `element.textContent || ''` */
  function TextOf(e: Element): string {
    match e.textContent
    case Some(t) => t
    case None => ""
  }

  /** The hints `createHints` builds for `elements`: the k-th element gets the
      label of k and the lower-cased snapshot of its text. */
  function HintsFor(elements: seq<Element>): (hs: seq<Hint>)
    ensures |hs| == |elements|
  {
    seq(|elements|, k requires 0 <= k < |elements| => Hint(elements[k], Label(k), Lower(TextOf(elements[k]))))
  }

  /** Enumerating one more element appends its hint. */
  lemma HintsForSnoc(elements: seq<Element>, k: nat)
    requires k < |elements|
    ensures HintsFor(elements[..k + 1])
      == HintsFor(elements[..k]) + [Hint(elements[k], Label(k), Lower(TextOf(elements[k])))]
  {
    var a, b := HintsFor(elements[..k + 1]), HintsFor(elements[..k]);
    assert forall i :: 0 <= i < k ==> a[i] == b[i];
  }

  /** Hint k carries the label of k and the lower-cased text of its element. */
  predicate WellLabelled(hints: seq<Hint>) {
    forall k :: 0 <= k < |hints| ==>
      hints[k].text == Label(k) && hints[k].elementText == Lower(TextOf(hints[k].element))
  }

  lemma HintsForWellLabelled(elements: seq<Element>)
    ensures WellLabelled(HintsFor(elements))
    ensures forall k :: 0 <= k < |elements| ==> HintsFor(elements)[k].element == elements[k]
  {
  }

  /** The hints of one session are pairwise different, even where the same
      element was enumerated twice, because their labels differ. */
  lemma HintsDistinct(hints: seq<Hint>, i: nat, j: nat)
    requires WellLabelled(hints) && i < |hints| && j < |hints| && i != j
    ensures hints[i] != hints[j]
  {
    if hints[i] == hints[j] {
      LabelInjective(i, j);
    }
  }

  /** `this.hints.filter(hint => hint.text.startsWith(prefix))` */
  function LabelMatches(hints: seq<Hint>, prefix: string): (r: seq<Hint>)
    ensures forall h :: h in r <==> h in hints && prefix <= h.text
  {
    Filter(hints, (h: Hint) => prefix <= h.text)
  }

  /** `this.hints.filter(hint => hint.elementText.includes(search))` */
  function TextMatches(hints: seq<Hint>, search: string): (r: seq<Hint>)
    ensures forall h :: h in r <==> h in hints && Contains(h.elementText, search)
  {
    Filter(hints, (h: Hint) => Contains(h.elementText, search))
  }

  /** Both filters keep the surviving hints in their original order. */
  lemma MatchesInOrder(hints: seq<Hint>, prefix: string, search: string)
    ensures IsSubseq(LabelMatches(hints, prefix), hints)
    ensures IsSubseq(TextMatches(hints, search), hints)
  {
    FilterIsSubseq(hints, (h: Hint) => prefix <= h.text);
    FilterIsSubseq(hints, (h: Hint) => Contains(h.elementText, search));
  }

  /** The empty prefix keeps every hint. */
  lemma EmptyPrefixMatchesAll(hints: seq<Hint>)
    ensures LabelMatches(hints, "") == hints
  {
    FilterAll(hints, (h: Hint) => "" <= h.text);
  }

  /** Typing more text can only narrow the text-mode matches, and keeps them
      in order. */
  lemma TextMatchesNarrow(hints: seq<Hint>, p: string, q: string)
    ensures IsSubseq(TextMatches(hints, p + q), TextMatches(hints, p))
  {
    forall h: Hint | Contains(h.elementText, p + q) ensures Contains(h.elementText, p) {
      ContainsLonger(h.elementText, p, q);
    }
    FilterMonotone(hints, (h: Hint) => Contains(h.elementText, p + q), (h: Hint) => Contains(h.elementText, p));
  }

  /** A search text holding a capital letter matches no hint: element texts
      are lower-cased. */
  lemma CapitalMatchesNothing(hints: seq<Hint>, search: string, k: nat)
    requires WellLabelled(hints)
    requires k < |search| && IsLetter(search[k])
    ensures TextMatches(hints, search) == []
  {
    forall i | 0 <= i < |hints| ensures !Contains(hints[i].elementText, search) {
      NoCapitalNoMatch(hints[i].elementText, search, k);
    }
    FilterNone(hints, (h: Hint) => Contains(h.elementText, search));
  }

  /** Typing the whole label of hint j selects hint j alone when no other
      label extends it: for j = 0 ("A") always, otherwise when there are at
      most 26 * j hints. */
  lemma FullLabelUnique(hints: seq<Hint>, j: nat)
    requires WellLabelled(hints) && j < |hints|
    requires j == 0 || |hints| <= 26 * j
    ensures LabelMatches(hints, Label(j)) == [hints[j]]
  {
    forall k | 0 <= k < |hints| && k != j ensures !(Label(j) <= hints[k].text) {
      ValueOfLabel(j);
      ValueOfLabel(k);
      if j == 0 {
        LabelExamples();
        if k < 26 {
          AlphabetDigits(k);
        }
        assert Label(k)[0] != 'A';
      } else if Label(j) <= Label(k) && Label(j) != Label(k) {
        ExtensionBound(j, k);
      }
    }
    FilterSingle(hints, (h: Hint) => Label(j) <= h.text, j);
  }

  /** When hint 26 * j exists (j > 0), its label is the label of j followed
      by "A", so every prefix that selects hint j also selects hint 26 * j:
      hint j can never be the only label match. */
  lemma ShadowedLabel(hints: seq<Hint>, j: nat, prefix: string)
    requires WellLabelled(hints) && 0 < j && 26 * j < |hints|
    ensures hints[j] in LabelMatches(hints, prefix) ==> hints[26 * j] in LabelMatches(hints, prefix)
    ensures LabelMatches(hints, prefix) != [hints[j]]
  {
    var m := LabelMatches(hints, prefix);
    ChildText(hints, j);
    HintsDistinct(hints, j, 26 * j);
    if hints[j] in m {
      assert prefix <= hints[j].text;
      assert prefix <= hints[26 * j].text;
      TwoMembers(m, hints[j], hints[26 * j]);
    }
  }

  /** A non-empty proper prefix of a label is matched by at least two hints:
      the hint it labels and the hint whose label it begins. */
  lemma ProperPrefixMatchesTwo(hints: seq<Hint>, j: nat, prefix: string)
    requires WellLabelled(hints) && j < |hints|
    requires 1 <= |prefix| && prefix <= Label(j) && prefix != Label(j)
    ensures |LabelMatches(hints, prefix)| >= 2
  {
    PrefixOfLabel(j, prefix);
    var q := Value(prefix);
    HintsDistinct(hints, q, j);
    TwoMembers(LabelMatches(hints, prefix), hints[q], hints[j]);
  }

  /** After the whole label of j, hint 26 * j (j > 0) is still in the running,
      so at least two hints match. */
  lemma FullLabelShadowed(hints: seq<Hint>, j: nat)
    requires WellLabelled(hints) && 0 < j && 26 * j < |hints|
    ensures |LabelMatches(hints, Label(j))| >= 2
  {
    var m := LabelMatches(hints, Label(j));
    ChildText(hints, j);
    HintsDistinct(hints, j, 26 * j);
    assert hints[j] in m && hints[26 * j] in m;
    TwoMembers(m, hints[j], hints[26 * j]);
  }

  /** The label of hint 26 * j extends the label of hint j by one letter. */
  lemma ChildText(hints: seq<Hint>, j: nat)
    requires WellLabelled(hints) && 0 < j && 26 * j < |hints|
    ensures hints[j].text <= hints[26 * j].text
  {
    LabelPrefixOfChild(j);
  }
}
