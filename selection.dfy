/** What typing does over a whole session: typing the label of a candidate
    right after activation selects that candidate exactly when no longer label
    begins with it, and a session acts on at most one element. */
module Selection {
  import opened Collections
  import opened Labels
  import opened Text
  import opened Dom
  import opened Matching
  import opened Engine

  /** Each of the first `n` non-empty prefixes of `w`, appended to the
      buffer `p`, leaves at least two hints matching. */
  predicate Ambiguous(hints: seq<Hint>, p: string, w: string, n: nat)
    requires n <= |w|
  {
    forall k :: 1 <= k <= n ==> |LabelMatches(hints, p + w[..k])| >= 2
  }

  /** Moving the first letter of `w` into the buffer. */
  lemma AmbiguousShift(hints: seq<Hint>, p: string, w: string, n: nat)
    requires 1 <= n <= |w| && Ambiguous(hints, p, w, n)
    ensures |LabelMatches(hints, p + [w[0]])| >= 2
    ensures Ambiguous(hints, p + [w[0]], w[1..], n - 1)
  {
    assert w[..1] == [w[0]];
    forall k | 1 <= k <= n - 1 ensures |LabelMatches(hints, p + [w[0]] + w[1..][..k])| >= 2 {
      assert p + [w[0]] + w[1..][..k] == p + w[..k + 1];
    }
  }

  /** Typing the letters `w` in label mode: when every letter but the last
      leaves at least two hints matching the buffer and the last leaves the
      single hint `h`, the session acts on the element of `h` and is torn
      down. */
  lemma {:induction false} TypeWordResolves(s: ManagerState, w: string, target: string, h: Hint)
    requires s.isActive && !s.shiftPressed && w != [] && AllLetters(w)
    requires Ambiguous(s.hints, s.partialMatch, w, |w| - 1)
    requires s.partialMatch + w == target && LabelMatches(s.hints, target) == [h]
    ensures Type(s, Keys(w)).1 == [ClickElement(h.element)]
    ensures Type(s, Keys(w)).0 == Initial
    decreases |w|
  {
    if |w| == 1 {
      LastLetterResolves(s, w, target, h);
    } else {
      var s' := Advance(s, w, |w| - 1);
      TypeWordResolves(s', w[1..], target, h);
    }
  }

  /** Typing the letters `w` in label mode when every prefix of them, `w`
      included, leaves at least two hints matching the buffer: nothing is
      resolved and the session stays live with `w` appended to the buffer. */
  lemma {:induction false} TypeWordPending(s: ManagerState, w: string)
    requires s.isActive && !s.shiftPressed && AllLetters(w)
    requires s.activeHints == LabelMatches(s.hints, s.partialMatch)
    requires Ambiguous(s.hints, s.partialMatch, w, |w|)
    ensures Type(s, Keys(w)).1 == []
    ensures var r := Type(s, Keys(w)).0;
      && r.isActive && r.hints == s.hints && r.partialMatch == s.partialMatch + w
      && r.activeHints == LabelMatches(s.hints, r.partialMatch) && r.shiftPressed == s.shiftPressed
    decreases |w|
  {
    if w == [] {
      assert s.partialMatch + w == s.partialMatch;
      assert Keys(w) == [];
    } else {
      var s' := Advance(s, w, |w|);
      TypeWordPending(s', w[1..]);
    }
  }

  /** Typing the first letter of `w` when it leaves at least two matches:
      the session goes on in the state `next`, with that letter in the buffer
      and the rest of `w` still to type. */
  lemma Advance(s: ManagerState, w: string, n: nat) returns (next: ManagerState)
    requires s.isActive && !s.shiftPressed && AllLetters(w)
    requires 1 <= n <= |w| && Ambiguous(s.hints, s.partialMatch, w, n)
    ensures next.isActive && !next.shiftPressed && next.hints == s.hints
    ensures next.partialMatch == s.partialMatch + [w[0]] && AllLetters(w[1..])
    ensures next.partialMatch + w[1..] == s.partialMatch + w
    ensures next.activeHints == LabelMatches(s.hints, next.partialMatch)
    ensures Ambiguous(next.hints, next.partialMatch, w[1..], n - 1)
    ensures Type(s, Keys(w)).0 == Type(next, Keys(w[1..])).0
    ensures Type(s, Keys(w)).1 == Type(next, Keys(w[1..])).1
  {
    assert Keys(w) == [LetterKey(w[0])] + Keys(w[1..]);
    assert IsLetter(w[0]);
    assert s.partialMatch + [w[0]] + w[1..] == s.partialMatch + w;
    AmbiguousShift(s.hints, s.partialMatch, w, n);
    next := MiddleLetter(s, w[0], Keys(w[1..]));
  }

  /** The last letter, leaving a single match `h`. */
  lemma LastLetterResolves(s: ManagerState, w: string, target: string, h: Hint)
    requires s.isActive && !s.shiftPressed && |w| == 1 && IsLetter(w[0])
    requires s.partialMatch + w == target && LabelMatches(s.hints, target) == [h]
    ensures Type(s, Keys(w)).1 == [ClickElement(h.element)]
    ensures Type(s, Keys(w)).0 == Initial
  {
    var c := w[0];
    assert w == [c];
    assert Keys(w) == [LetterKey(c)] + Keys([]);
    LetterStep(s, c);
    TypeCons(s, LetterKey(c), []);
    assert [LetterKey(c)] + [] == [LetterKey(c)];
    NoActionWhileInactive(Remove(s), []);
  }

  /** A letter leaving at least two hints matching: nothing is resolved and
      the session goes on, in the state `next`, with the longer buffer. */
  lemma MiddleLetter(s: ManagerState, c: char, rest: seq<KeyEvent>) returns (next: ManagerState)
    requires s.isActive && !s.shiftPressed && IsLetter(c)
    requires |LabelMatches(s.hints, s.partialMatch + [c])| >= 2
    ensures Type(s, [LetterKey(c)] + rest).0 == Type(next, rest).0
    ensures Type(s, [LetterKey(c)] + rest).1 == Type(next, rest).1
    ensures next.isActive && !next.shiftPressed && next.hints == s.hints
    ensures next.partialMatch == s.partialMatch + [c]
    ensures next.activeHints == LabelMatches(s.hints, next.partialMatch)
  {
    LetterStep(s, c);
    TypeCons(s, LetterKey(c), rest);
    next := DeliverKeyDown(s, LetterKey(c)).next;
  }

  /** Label mode, an unmodified letter key while the session is live: the
      one-match and the several-matches outcomes. */
  lemma LetterStep(s: ManagerState, c: char)
    requires IsLetter(c) && s.isActive && !s.shiftPressed
    ensures var m := LabelMatches(s.hints, s.partialMatch + [c]);
      var st := DeliverKeyDown(s, LetterKey(c));
      && (|m| == 1 ==> st.action == Some(ClickElement(m[0].element)) && st.next == Remove(s))
      && (|m| >= 2 ==>
            st.action == None && st.next == UpdateVisible(s.(partialMatch := s.partialMatch + [c], activeHints := m)))
  {
    UpperOfLower(c);
  }

  /** Typing a first key, then the rest. */
  lemma TypeCons(s: ManagerState, ev: KeyEvent, keys: seq<KeyEvent>)
    ensures var st := DeliverKeyDown(s, ev);
      && Type(s, [ev] + keys).0 == Type(st.next, keys).0
      && Type(s, [ev] + keys).1 == (if st.action.Some? then [st.action.value] else []) + Type(st.next, keys).1
  {
    assert ([ev] + keys)[1..] == keys;
  }

  /** From a freshly started session (empty buffer, every hint shown,
      Shift not held), typing the label of hint j acts on hint j's element
      exactly when j is 0 or there are at most 26 * j hints, and returns the
      manager to its initial state; otherwise nothing happens and the session
      stays live, with the label in the buffer and at least two hints shown. */
  lemma SelectFrom(s: ManagerState, j: nat)
    requires s.isActive && !s.shiftPressed && s.partialMatch == "" && s.activeHints == s.hints
    requires WellLabelled(s.hints) && j < |s.hints|
    ensures j == 0 || |s.hints| <= 26 * j ==>
      Type(s, Keys(Label(j))).1 == [ClickElement(s.hints[j].element)] && Type(s, Keys(Label(j))).0 == Initial
    ensures !(j == 0 || |s.hints| <= 26 * j) ==>
      var r := Type(s, Keys(Label(j))).0;
      && Type(s, Keys(Label(j))).1 == [] && r.isActive && r.hints == s.hints
      && r.partialMatch == Label(j) && |r.activeHints| >= 2
  {
    var l := Label(j);
    PrefixesAmbiguous(s.hints, j);
    assert s.partialMatch + l == l;
    if j == 0 || |s.hints| <= 26 * j {
      FullLabelUnique(s.hints, j);
      TypeWordResolves(s, l, l, s.hints[j]);
    } else {
      FullLabelShadowed(s.hints, j);
      EmptyPrefixMatchesAll(s.hints);
      TypeWordPending(s, l);
    }
  }

  /** Every non-empty proper prefix of the label of j, typed into an empty
      buffer, leaves at least two hints matching; so does the whole label
      when hint 26 * j exists. */
  lemma PrefixesAmbiguous(hints: seq<Hint>, j: nat)
    requires WellLabelled(hints) && j < |hints|
    ensures Ambiguous(hints, "", Label(j), |Label(j)| - 1)
    ensures 26 * j < |hints| && 0 < j ==> Ambiguous(hints, "", Label(j), |Label(j)|)
  {
    forall k | 1 <= k < |Label(j)| ensures |LabelMatches(hints, "" + Label(j)[..k])| >= 2 {
      PrefixAmbiguous(hints, j, k);
    }
    if 26 * j < |hints| && 0 < j {
      forall k | 1 <= k <= |Label(j)| ensures |LabelMatches(hints, "" + Label(j)[..k])| >= 2 {
        PrefixAmbiguous(hints, j, k);
      }
    }
  }

  /** The first `k` letters of the label of j leave at least two hints
      matching. */
  lemma PrefixAmbiguous(hints: seq<Hint>, j: nat, k: nat)
    requires WellLabelled(hints) && j < |hints| && 1 <= k <= |Label(j)|
    requires k == |Label(j)| ==> 0 < j && 26 * j < |hints|
    ensures |LabelMatches(hints, "" + Label(j)[..k])| >= 2
  {
    var p := Label(j)[..k];
    assert "" + p == p;
    if k < |Label(j)| {
      ProperPrefixMatchesTwo(hints, j, p);
    } else {
      assert p == Label(j);
      FullLabelShadowed(hints, j);
    }
  }

  /** Right after activation (without Shift held), typing the label of
      candidate j acts on candidate j — it is focused or clicked as
      `clickElement` decides — exactly when j is 0 or there are at most 26 * j
      candidates. Otherwise the label of j followed by "A" is the label of
      candidate 26 * j, nothing happens, and the session stays live. */
  lemma SelectByLabel(s0: ManagerState, page: Page, j: nat)
    requires !s0.isActive && !s0.shiftPressed && j < |Candidates(page)|
    ensures var r, acts := Type(Activate(s0, page), Keys(Label(j))).0, Type(Activate(s0, page), Keys(Label(j))).1;
      && (acts == [ClickElement(Candidates(page)[j])] <==> j == 0 || |Candidates(page)| <= 26 * j)
      && (acts == [] <==> !(j == 0 || |Candidates(page)| <= 26 * j))
      && (r.isActive <==> !(j == 0 || |Candidates(page)| <= 26 * j))
  {
    ActivateStartsSession(s0, page);
    HintsForWellLabelled(Candidates(page));
    SelectFrom(Activate(s0, page), j);
  }

  /** A session acts on at most one element, and only on the element of one
      of its hints: resolving tears the session down, and the handlers are
      detached after that. */
  lemma {:induction false} AtMostOneAction(s: ManagerState, keys: seq<KeyEvent>)
    ensures |Type(s, keys).1| <= 1
    ensures forall a :: a in Type(s, keys).1 ==> exists h :: h in s.hints && a == ClickElement(h.element)
    decreases |keys|
  {
    if keys != [] {
      var st := DeliverKeyDown(s, keys[0]);
      if st.action.Some? {
        assert s.isActive;
        ActionOnlyOnResolution(s, keys[0]);
        NoActionWhileInactive(st.next, keys[1..]);
      } else {
        AtMostOneAction(st.next, keys[1..]);
        assert st.next.hints == s.hints || st.next.hints == [] by {
          KeyDownKeepsHints(s, keys[0]);
        }
      }
    }
  }

  /** Keys typed while no session is live do nothing. */
  lemma {:induction false} NoActionWhileInactive(s: ManagerState, keys: seq<KeyEvent>)
    requires !s.isActive
    ensures Type(s, keys).0 == s && Type(s, keys).1 == []
    decreases |keys|
  {
    if keys != [] {
      InactiveIgnoresKeys(s, keys[0]);
      NoActionWhileInactive(s, keys[1..]);
      TypeCons(s, keys[0], keys[1..]);
      assert [keys[0]] + keys[1..] == keys;

    }
  }

  /** A key-down either keeps the hints or tears the session down. */
  lemma KeyDownKeepsHints(s: ManagerState, ev: KeyEvent)
    ensures DeliverKeyDown(s, ev).next.hints == s.hints || DeliverKeyDown(s, ev).next.hints == []
  {
  }
}
