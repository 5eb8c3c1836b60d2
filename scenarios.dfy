/** Concrete sessions: a small page in label mode, the reset on a letter no
    label starts with, a shadowed label, and a text-mode selection. */
module Scenarios {
  import opened Collections
  import opened Labels
  import opened Text
  import opened Dom
  import opened Matching
  import opened Engine
  import opened Selection

  /** With three candidates the labels are "A", "B" and "C", and typing "b"
      right after activation acts on the second candidate. */
  lemma ThreeCandidates(s0: ManagerState, page: Page)
    requires !s0.isActive && !s0.shiftPressed && |Candidates(page)| == 3
    ensures Type(Activate(s0, page), Keys("B")).1 == [ClickElement(Candidates(page)[1])]
    ensures !Type(Activate(s0, page), Keys("B")).0.isActive
  {
    LabelExamples();
    AlphabetDigits(1);
    assert Label(1) == "B";
    SelectByLabel(s0, page, 1);
  }

  /** With three candidates no label starts with "D": the key resets the
      buffer and shows every hint again, and the session stays live. */
  lemma ResetOnUnmatchedLetter(s0: ManagerState, page: Page)
    requires !s0.isActive && !s0.shiftPressed && |Candidates(page)| == 3
    ensures var s1 := Activate(s0, page);
      var st := KeyDown(s1, LetterKey('D'));
      && st.action == None && st.prevented
      && st.next.isActive && st.next.partialMatch == "" && st.next.activeHints == s1.hints
      && forall k :: 0 <= k < 3 ==> st.next.markers[k]
  {
    var s1 := Activate(s0, page);
    var ev := LetterKey('D');
    NoLabelStartsWithD(s1.hints);
    assert ev.key[0] == 'd' && UpperChar('d') == 'D';
    LabelModeLetter(s1, ev);
    forall k | 0 <= k < 3 ensures s1.hints[k] in s1.hints {
    }
  }

  /** Of three hints labelled "A", "B" and "C", none starts with "D". */
  lemma NoLabelStartsWithD(hints: seq<Hint>)
    requires |hints| == 3 && WellLabelled(hints)
    ensures LabelMatches(hints, "" + "D") == []
  {
    assert "" + "D" == "D";
    forall k | 0 <= k < 3 ensures !("D" <= hints[k].text) {
      AlphabetDigits(k);
    }
    FilterNone(hints, (h: Hint) => "D" <= h.text);
  }

  /** With 27 candidates the 27th is labelled "BA", so typing "b" selects
      nothing: both "B" and "BA" still match. */
  lemma ShadowedSecondCandidate(s0: ManagerState, page: Page)
    requires !s0.isActive && !s0.shiftPressed && |Candidates(page)| == 27
    ensures Type(Activate(s0, page), Keys("B")).1 == []
    ensures Type(Activate(s0, page), Keys("B")).0.isActive
  {
    LabelExamples();
    AlphabetDigits(1);
    assert Label(1) == "B";
    SelectByLabel(s0, page, 1);
  }

  /** Text mode with Shift held: of a "Submit" and a "Cancel" control, typing
      "s" leaves only "submit" containing the search text, so it is acted on. */
  lemma TextSearchSelects(s: ManagerState, submit: Element, cancel: Element)
    requires s.shiftPressed && s.partialMatch == ""
    requires TextOf(submit) == "Submit" && TextOf(cancel) == "Cancel"
    requires s.hints == HintsFor([submit, cancel])
    ensures KeyDown(s, KeyEvent("s", false, false, false)).action == Some(ClickElement(submit))
    ensures !KeyDown(s, KeyEvent("s", false, false, false)).next.isActive
  {
    var ev := KeyEvent("s", false, false, false);
    OnlySubmitContainsS(submit, cancel);
    assert Lower(ev.key) == "s";
    assert s.partialMatch + Lower(ev.key) == "s";
    TextModeKey(s, ev);
  }

  /** Of the texts "submit" and "cancel", only the first contains "s". */
  lemma OnlySubmitContainsS(submit: Element, cancel: Element)
    requires TextOf(submit) == "Submit" && TextOf(cancel) == "Cancel"
    ensures TextMatches(HintsFor([submit, cancel]), "s") == [HintsFor([submit, cancel])[0]]
    ensures HintsFor([submit, cancel])[0].element == submit
  {
    var hs := HintsFor([submit, cancel]);
    assert hs[0].elementText == "submit";
    assert hs[1].elementText == "cancel";
    assert Contains("submit", "s");
    NotInCancel();
    FilterSingle(hs, (h: Hint) => Contains(h.elementText, "s"), 0);
  }

  /** "cancel" does not contain "s". */
  lemma NotInCancel()
    ensures !Contains("cancel", "s")
  {
    var t := "cancel";
    assert forall i :: 0 <= i < |t| ==> t[i] != 's';
    AbsentChar(t, 's');
  }

  /** A text without the character `c` does not contain the search text made
      of `c` alone. */
  lemma {:induction false} AbsentChar(hay: string, c: char)
    requires forall i :: 0 <= i < |hay| ==> hay[i] != c
    ensures !Contains(hay, [c])
    decreases |hay|
  {
    if hay != [] {
      assert hay[0] != c;
      AbsentChar(hay[1..], c);
    }
  }
}
