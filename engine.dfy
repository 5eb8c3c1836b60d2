/** The hint manager's decision logic as a pure state machine: one function
    per handler of `HintManager`, from the state before to the state after,
    the click or focus it triggers and whether it calls `preventDefault`. The
    class in module Manager is proved to follow these functions. */
module Engine {
  import opened Collections
  import opened Labels
  import opened Text
  import opened Dom
  import opened Matching

  /** The fields of a `KeyboardEvent` the handlers read. */
  datatype KeyEvent = KeyEvent(key: string, ctrlKey: bool, altKey: bool, metaKey: bool)

  /** A runtime message; `mode` is carried but never read. */
  datatype Message = Message(action: string, mode: string)

  /** The fields of `HintManager`. `markers[k]` is whether the marker of
      `hints[k]` is displayed; the key listeners are attached exactly while
      `isActive` holds. */
  datatype ManagerState = ManagerState(
    hints: seq<Hint>,
    activeHints: seq<Hint>,
    isActive: bool,
    partialMatch: string,
    shiftPressed: bool,
    markers: seq<bool>)

  /** The outcome of one key-down: the new state, the element action if the
      key resolved a hint, and whether the event's default was prevented. */
  datatype Step = Step(next: ManagerState, action: Option<Action>, prevented: bool)

  /** What the constructor sets up. */
  const Initial: ManagerState := ManagerState([], [], false, "", false, [])

  /** The invariant every reachable state keeps: hint k is labelled with the
      label of k, every hint has a marker, the active hints are drawn in order
      from the hints, and an inactive manager holds no hints. */
  predicate Valid(s: ManagerState) {
    && WellLabelled(s.hints)
    && |s.markers| == |s.hints|
    && IsSubseq(s.activeHints, s.hints)
    && (!s.isActive ==> s.hints == [] && s.activeHints == [])
  }

  /** `removeHints`: markers removed, lists and buffer cleared, listeners
      detached. The Shift latch is left as it is. */
  function Remove(s: ManagerState): ManagerState {
    s.(hints := [], activeHints := [], isActive := false, partialMatch := "", markers := [])
  }

  /** `updateVisibleHints`: a marker is displayed exactly when its hint is
      among the active hints. */
  function UpdateVisible(s: ManagerState): ManagerState {
    s.(markers := seq(|s.hints|, k requires 0 <= k < |s.hints| => s.hints[k] in s.activeHints))
  }

  /** `n` markers, all displayed. */
  function AllShown(n: nat): (r: seq<bool>)
    ensures |r| == n && forall i :: 0 <= i < n ==> r[i]
  {
    if n == 0 then [] else AllShown(n - 1) + [true]
  }

  /** `activateHints`: a second activation toggles the session off; otherwise
      the candidates are enumerated and labelled, every marker is shown and
      the buffer starts empty. */
  function Activate(s: ManagerState, page: Page): ManagerState {
    if s.isActive then Remove(s)
    else
      var hs := HintsFor(Candidates(page));
      s.(isActive := true, hints := hs, activeHints := hs, partialMatch := "",
         markers := AllShown(|hs|))
  }

  /** Exactly one hint is left: act on its element and tear the session down. */
  function Resolve(s: ManagerState, h: Hint): Step {
    Step(Remove(s), Some(ClickElement(h.element)), true)
  }

  /** `handleKeyDown`. */
  function KeyDown(s: ManagerState, ev: KeyEvent): Step {
    if ev.key == "Escape" then Step(Remove(s), None, true)
    else if ev.key == "Shift" then Step(s.(shiftPressed := true), None, false)
    else if ev.ctrlKey || ev.altKey || ev.metaKey then Step(s, None, false)
    else if s.shiftPressed then
      // text mode: substring search on the lower-cased element texts
      var searchText := s.partialMatch + Lower(ev.key);
      var matches := TextMatches(s.hints, searchText);
      if |matches| == 1 then Resolve(s, matches[0])
      else Step(UpdateVisible(s.(partialMatch := searchText, activeHints := matches)), None, true)
    else
      // label mode: prefix search on the labels, one letter at a time
      var key := Upper(ev.key);
      if |key| == 1 && IsLetter(key[0]) then
        var partial := s.partialMatch + key;
        var matches := LabelMatches(s.hints, partial);
        if |matches| == 1 then Resolve(s, matches[0])
        else if |matches| == 0 then
          Step(UpdateVisible(s.(partialMatch := "", activeHints := s.hints)), None, true)
        else Step(UpdateVisible(s.(partialMatch := partial, activeHints := matches)), None, true)
      else Step(s, None, true)
  }

  /** `handleKeyUp`: only a Shift key-up clears the latch. */
  function KeyUp(s: ManagerState, ev: KeyEvent): ManagerState {
    if ev.key == "Shift" then s.(shiftPressed := false) else s
  }

  /** The runtime message listener: any `activateHints` message activates,
      whatever its mode. */
  function OnMessage(s: ManagerState, msg: Message, page: Page): ManagerState {
    if msg.action == "activateHints" then Activate(s, page) else s
  }

  /** A key-down reaching the document: the handler runs only while its
      listener is attached. */
  function DeliverKeyDown(s: ManagerState, ev: KeyEvent): Step {
    if s.isActive then KeyDown(s, ev) else Step(s, None, false)
  }

  function DeliverKeyUp(s: ManagerState, ev: KeyEvent): ManagerState {
    if s.isActive then KeyUp(s, ev) else s
  }

  /** A sequence of key-downs delivered in order: the final state and the
      element actions triggered on the way. */
  function Type(s: ManagerState, keys: seq<KeyEvent>): (ManagerState, seq<Action>)
    decreases |keys|
  {
    if keys == [] then (s, [])
    else
      var st := DeliverKeyDown(s, keys[0]);
      var rest := Type(st.next, keys[1..]);
      (rest.0, (if st.action.Some? then [st.action.value] else []) + rest.1)
  }

  /** The key-down of an unmodified letter key, as typed without Shift. */
  function LetterKey(c: char): KeyEvent {
    KeyEvent([LowerChar(c)], false, false, false)
  }

  /** Typing a word of capitals as letter keys. */
  function Keys(w: string): seq<KeyEvent>
    decreases |w|
  {
    if w == [] then [] else [LetterKey(w[0])] + Keys(w[1..])
  }

  /** In label mode the buffer agrees with the visible set. */
  predicate LabelConsistent(s: ManagerState) {
    s.activeHints == LabelMatches(s.hints, s.partialMatch)
  }

  /** In text mode the buffer agrees with the visible set. */
  predicate TextConsistent(s: ManagerState) {
    s.activeHints == TextMatches(s.hints, s.partialMatch)
  }

  // ----- The invariant -----

  lemma InitialValid()
    ensures Valid(Initial) && !Initial.isActive && !Initial.shiftPressed
  {
  }

  lemma RemoveValid(s: ManagerState)
    ensures Valid(Remove(s))
    ensures !Remove(s).isActive && Remove(s).shiftPressed == s.shiftPressed
  {
  }

  lemma ActivateValid(s: ManagerState, page: Page)
    requires Valid(s)
    ensures Valid(Activate(s, page))
  {
    if !s.isActive {
      var hs := HintsFor(Candidates(page));
      HintsForWellLabelled(Candidates(page));
      SubseqRefl(hs);
    }
  }

  lemma UpdateVisibleValid(s: ManagerState)
    requires WellLabelled(s.hints) && IsSubseq(s.activeHints, s.hints)
    requires !s.isActive ==> s.hints == [] && s.activeHints == []
    ensures Valid(UpdateVisible(s))
  {
  }

  lemma KeyDownValid(s: ManagerState, ev: KeyEvent)
    requires Valid(s)
    ensures Valid(KeyDown(s, ev).next)
  {
    if ev.key != "Escape" && ev.key != "Shift" && !(ev.ctrlKey || ev.altKey || ev.metaKey) {
      if s.shiftPressed {
        var searchText := s.partialMatch + Lower(ev.key);
        FilterIsSubseq(s.hints, (h: Hint) => Contains(h.elementText, searchText));
        UpdateVisibleValid(s.(partialMatch := searchText, activeHints := TextMatches(s.hints, searchText)));
      } else {
        var key := Upper(ev.key);
        if |key| == 1 && IsLetter(key[0]) {
          var partial := s.partialMatch + key;
          FilterIsSubseq(s.hints, (h: Hint) => partial <= h.text);
          SubseqRefl(s.hints);
          UpdateVisibleValid(s.(partialMatch := "", activeHints := s.hints));
          UpdateVisibleValid(s.(partialMatch := partial, activeHints := LabelMatches(s.hints, partial)));
        }
      }
    }
  }

  lemma KeyUpValid(s: ManagerState, ev: KeyEvent)
    requires Valid(s)
    ensures Valid(KeyUp(s, ev)) && KeyUp(s, ev).isActive == s.isActive
  {
  }

  lemma DeliverValid(s: ManagerState, ev: KeyEvent)
    requires Valid(s)
    ensures Valid(DeliverKeyDown(s, ev).next) && Valid(DeliverKeyUp(s, ev))
  {
    KeyDownValid(s, ev);
  }

  // ----- Activation and teardown -----

  /** Activating an inactive manager labels candidate k with the label of k,
      snapshots its lower-cased text, shows every hint and every marker and
      starts with an empty buffer; the Shift latch is untouched. */
  lemma ActivateStartsSession(s: ManagerState, page: Page)
    requires !s.isActive
    ensures var r := Activate(s, page);
      && r.isActive && r.partialMatch == "" && r.shiftPressed == s.shiftPressed
      && |r.hints| == |Candidates(page)| && r.activeHints == r.hints
      && (forall k :: 0 <= k < |r.hints| ==>
            && r.hints[k].element == Candidates(page)[k]
            && r.hints[k].text == Label(k)
            && r.hints[k].elementText == Lower(TextOf(Candidates(page)[k]))
            && r.markers[k])
  {
  }

  /** Activating while a session is live cancels it: nothing is enumerated,
      the lists and the buffer are cleared, only the latch survives. */
  lemma ActivateWhileActiveCancels(s: ManagerState, page: Page)
    requires s.isActive
    ensures var r := Activate(s, page);
      && !r.isActive && r.hints == [] && r.activeHints == [] && r.partialMatch == ""
      && r.markers == [] && r.shiftPressed == s.shiftPressed
  {
  }

  /** Two activations in a row are one activation cancelled with Escape, and
      leave the manager as a teardown of the starting state would. */
  lemma ActivateTwiceIsCancel(s: ManagerState, p1: Page, p2: Page, esc: KeyEvent)
    requires !s.isActive && esc.key == "Escape"
    ensures Activate(Activate(s, p1), p2) == KeyDown(Activate(s, p1), esc).next
    ensures Activate(Activate(s, p1), p2) == Remove(s)
  {
  }

  /** Escape cancels from any state, whatever modifier or latch is held, and
      its default is prevented. */
  lemma EscapeCancels(s: ManagerState, ev: KeyEvent)
    requires ev.key == "Escape"
    ensures KeyDown(s, ev) == Step(Remove(s), None, true)
    ensures !KeyDown(s, ev).next.isActive && KeyDown(s, ev).next.shiftPressed == s.shiftPressed
  {
  }

  // ----- The Shift latch -----

  /** Shift key-down sets the latch and nothing else (even with a modifier);
      only a Shift key-up clears it; other key-ups change nothing; teardown
      leaves it alone. */
  lemma ShiftLatch(s: ManagerState, down: KeyEvent, up: KeyEvent, other: KeyEvent)
    requires down.key == "Shift" && up.key == "Shift" && other.key != "Shift"
    ensures KeyDown(s, down) == Step(s.(shiftPressed := true), None, false)
    ensures KeyUp(s, up) == s.(shiftPressed := false)
    ensures KeyUp(s, other) == s
    ensures Remove(s).shiftPressed == s.shiftPressed
  {
  }

  /** A key held with Ctrl, Alt or Meta (other than Escape and Shift) changes
      nothing and is let through to the page. */
  lemma ModifiedKeysIgnored(s: ManagerState, ev: KeyEvent)
    requires ev.key != "Escape" && ev.key != "Shift"
    requires ev.ctrlKey || ev.altKey || ev.metaKey
    ensures KeyDown(s, ev) == Step(s, None, false)
  {
  }

  /** While no session is live the handlers are detached: key events change
      nothing. */
  lemma InactiveIgnoresKeys(s: ManagerState, ev: KeyEvent)
    requires !s.isActive
    ensures DeliverKeyDown(s, ev) == Step(s, None, false)
    ensures DeliverKeyUp(s, ev) == s
  {
  }

  // ----- Label mode -----

  /** Label mode, a key that is not a single letter: no state changes, the
      default is still prevented. */
  lemma LabelModeIgnoresNonLetters(s: ManagerState, ev: KeyEvent)
    requires !s.shiftPressed && ev.key != "Escape" && ev.key != "Shift"
    requires !(ev.ctrlKey || ev.altKey || ev.metaKey)
    requires !(|ev.key| == 1 && (IsLetter(ev.key[0]) || IsLowerLetter(ev.key[0])))
    ensures KeyDown(s, ev) == Step(s, None, true)
  {
    UpperIsLetter(ev.key);
  }

  /** Label mode, a letter key: the upper-cased letter is appended to the
      buffer and the hints whose label starts with the buffer are kept, in
      order. One match resolves it and tears the session down; no match
      resets the buffer and shows every hint again; several matches narrow
      the visible set. Markers follow the visible set. */
  lemma LabelModeLetter(s: ManagerState, ev: KeyEvent)
    requires !s.shiftPressed && ev.key != "Escape" && ev.key != "Shift"
    requires !(ev.ctrlKey || ev.altKey || ev.metaKey)
    requires |ev.key| == 1 && (IsLetter(ev.key[0]) || IsLowerLetter(ev.key[0]))
    ensures var c := if IsLowerLetter(ev.key[0]) then UpperChar(ev.key[0]) else ev.key[0];
      var partial := s.partialMatch + [c];
      var matches := LabelMatches(s.hints, partial);
      var st := KeyDown(s, ev);
      && IsLetter(c)
      && st.prevented
      && (|matches| == 1 ==>
            st.action == Some(ClickElement(matches[0].element)) && matches[0] in s.hints
            && st.next == Remove(s))
      && (|matches| == 0 ==>
            st.action == None && st.next.partialMatch == "" && st.next.activeHints == s.hints)
      && (|matches| >= 2 ==>
            st.action == None && st.next.partialMatch == partial && st.next.activeHints == matches)
      && (|matches| != 1 ==>
            st.next.hints == s.hints && st.next.isActive == s.isActive
            && st.next.shiftPressed == s.shiftPressed
            && |st.next.markers| == |s.hints|
            && forall k :: 0 <= k < |s.hints| ==> (st.next.markers[k] <==> s.hints[k] in st.next.activeHints))
  {
    assert Upper(ev.key) == [if IsLowerLetter(ev.key[0]) then UpperChar(ev.key[0]) else ev.key[0]];
  }

  /** Label mode keeps the visible set equal to the hints matching the buffer:
      a reset empties the buffer, and the empty prefix matches every hint. */
  lemma LabelModeStaysConsistent(s: ManagerState, ev: KeyEvent)
    requires LabelConsistent(s) && !s.shiftPressed
    ensures LabelConsistent(KeyDown(s, ev).next)
  {
    EmptyPrefixMatchesAll(s.hints);
    EmptyPrefixMatchesAll([]);
  }

  // ----- Text mode -----

  /** Text mode: the lower-cased key is appended to whatever the buffer holds
      (a label prefix typed earlier included) and the hints whose element text
      contains the buffer are kept. One match resolves; zero matches do NOT
      reset. Any key without a modifier counts, "Enter" appending "enter". */
  lemma TextModeKey(s: ManagerState, ev: KeyEvent)
    requires s.shiftPressed && ev.key != "Escape" && ev.key != "Shift"
    requires !(ev.ctrlKey || ev.altKey || ev.metaKey)
    ensures var search := s.partialMatch + Lower(ev.key);
      var matches := TextMatches(s.hints, search);
      var st := KeyDown(s, ev);
      && st.prevented
      && (|matches| == 1 ==>
            st.action == Some(ClickElement(matches[0].element)) && matches[0] in s.hints
            && st.next == Remove(s))
      && (|matches| != 1 ==>
            st.action == None && st.next.partialMatch == search && st.next.activeHints == matches
            && st.next.hints == s.hints && st.next.isActive == s.isActive && st.next.shiftPressed
            && forall k :: 0 <= k < |s.hints| ==> (st.next.markers[k] <==> s.hints[k] in matches))
  {
  }

  /** Once in text mode, every further key can only narrow the visible set. */
  lemma TextModeNarrows(s: ManagerState, ev: KeyEvent)
    requires TextConsistent(s) && s.shiftPressed && ev.key != "Escape" && ev.key != "Shift"
    requires !(ev.ctrlKey || ev.altKey || ev.metaKey)
    requires KeyDown(s, ev).action == None
    ensures TextConsistent(KeyDown(s, ev).next)
    ensures IsSubseq(KeyDown(s, ev).next.activeHints, s.activeHints)
  {
    TextMatchesNarrow(s.hints, s.partialMatch, Lower(ev.key));
  }

  /** The buffer is shared by both modes: a label letter typed before Shift
      is held stays in it as a capital, and element texts are lower-cased, so
      every text-mode key then matches nothing, resolves nothing and keeps the
      capital in the buffer. */
  lemma LabelPrefixBlocksTextMode(s: ManagerState, ev: KeyEvent, k: nat)
    requires Valid(s) && s.shiftPressed && ev.key != "Escape" && ev.key != "Shift"
    requires !(ev.ctrlKey || ev.altKey || ev.metaKey)
    requires k < |s.partialMatch| && IsLetter(s.partialMatch[k])
    ensures KeyDown(s, ev).action == None
    ensures KeyDown(s, ev).next.activeHints == []
    ensures k < |KeyDown(s, ev).next.partialMatch| && IsLetter(KeyDown(s, ev).next.partialMatch[k])
  {
    var search := s.partialMatch + Lower(ev.key);
    assert search[k] == s.partialMatch[k];
    CapitalMatchesNothing(s.hints, search, k);
  }

  // ----- Resolution -----

  /** A key-down acts on an element only by resolving: the element belongs to
      one of the current hints and the session is torn down. */
  lemma ActionOnlyOnResolution(s: ManagerState, ev: KeyEvent)
    requires KeyDown(s, ev).action.Some?
    ensures exists h :: h in s.hints && KeyDown(s, ev).action == Some(ClickElement(h.element))
    ensures KeyDown(s, ev).next == Remove(s) && KeyDown(s, ev).prevented
  {
    if s.shiftPressed {
      var m := TextMatches(s.hints, s.partialMatch + Lower(ev.key));
      assert m[0] in m;
    } else {
      var m := LabelMatches(s.hints, s.partialMatch + Upper(ev.key));
      assert m[0] in m;
    }
  }

  // ----- The message listener -----

  /** The `mode` of a message is ignored, and any other action is ignored. */
  lemma MessageModeIgnored(s: ManagerState, page: Page, m1: Message, m2: Message)
    requires m1.action == m2.action
    ensures OnMessage(s, m1, page) == OnMessage(s, m2, page)
    ensures m1.action != "activateHints" ==> OnMessage(s, m1, page) == s
  {
  }
}
