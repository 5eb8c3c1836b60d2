/** The `HintManager` class itself: its fields, updated in place by its
    methods, and each method proved to change them as the matching function
    of module Engine says. The DOM is passed in as a `Page`; what a method
    does to an element (focus or click) is returned rather than performed,
    and the default prevention of a key event is returned as a flag. */
module Manager {
  import opened Collections
  import opened Labels
  import opened Text
  import opened Dom
  import opened Matching
  import opened Engine

  class HintManager {
    var hints: seq<Hint>
    var activeHints: seq<Hint>
    var isActive: bool
    var partialMatch: string
    var shiftPressed: bool
    /** `markers[k]`: whether the marker of `hints[k]` is displayed. */
    var markers: seq<bool>

    /** The fields as a value. */
    function Model(): ManagerState
      reads this
    {
      ManagerState(hints, activeHints, isActive, partialMatch, shiftPressed, markers)
    }

    /** The class invariant: the one every reachable state keeps. */
    ghost predicate Valid()
      reads this
    {
      Engine.Valid(Model())
    }

    constructor()
      ensures Model() == Initial && Valid()
    {
      hints := [];
      activeHints := [];
      isActive := false;
      partialMatch := "";
      shiftPressed := false;
      markers := [];
    }

    /** `createHints`: one hint per element, labelled by its position, with
        its marker shown; then every hint is active. */
    method CreateHints(elements: seq<Element>)
      modifies this
      ensures hints == old(hints) + HintsFor(elements) && activeHints == hints
      ensures markers == old(markers) + AllShown(|elements|)
      ensures isActive == old(isActive) && partialMatch == old(partialMatch)
      ensures shiftPressed == old(shiftPressed)
    {
      for k := 0 to |elements|
        invariant hints == old(hints) + HintsFor(elements[..k])
        invariant markers == old(markers) + AllShown(k)
        invariant isActive == old(isActive) && partialMatch == old(partialMatch)
        invariant shiftPressed == old(shiftPressed)
      {
        PushHint(elements[k], k);
        HintsForSnoc(elements, k);
      }
      assert elements[..|elements|] == elements;
      activeHints := hints;
    }

    /** One pass of the `forEach` in `createHints`: the element at position
        `index` gets the label of `index`, a shown marker and its text. */
    method PushHint(element: Element, index: nat)
      modifies this
      ensures hints == old(hints) + [Hint(element, Label(index), Lower(TextOf(element)))]
      ensures markers == old(markers) + [true]
      ensures activeHints == old(activeHints) && isActive == old(isActive)
      ensures partialMatch == old(partialMatch) && shiftPressed == old(shiftPressed)
    {
      var hintString := GenerateHintString(index);
      hints := hints + [Hint(element, hintString, Lower(TextOf(element)))];
      markers := markers + [true];
    }

    /** `removeHints`: markers taken off the page, lists and buffer cleared,
        listeners detached; the Shift latch is kept. */
    method RemoveHints()
      modifies this
      ensures Valid()
      ensures Model() == Remove(old(Model()))
    {
      RemoveValid(Model());
      markers := [];
      hints := [];
      activeHints := [];
      isActive := false;
      partialMatch := "";
    }

    /** `activateHints`: toggles the session off when one is live, otherwise
        labels the visible candidates of `page` and attaches the listeners. */
    method ActivateHints(page: Page)
      modifies this
      ensures Valid()
      ensures Model() == Activate(old(Model()), page)
    {
      if isActive {
        RemoveHints();
        return;
      }
      isActive := true;
      hints := [];
      activeHints := [];
      partialMatch := "";
      markers := [];
      var elements := FindClickableElements(page);
      CreateHints(elements);
      var hs := HintsFor(elements);
      assert hints == hs by { assert [] + hs == hs; }
      assert markers == AllShown(|hs|) by { assert [] + AllShown(|hs|) == AllShown(|hs|); }
      HintsForWellLabelled(elements);
      SubseqRefl(hints);
    }

    /** `updateVisibleHints`: each marker is shown exactly when its hint is
        active. */
    method UpdateVisibleHints()
      requires Valid()
      modifies this
      ensures Valid()
      ensures Model() == UpdateVisible(old(Model()))
    {
      UpdateVisibleValid(Model());
      var shown := MarkerStates(hints, activeHints);
      markers := shown;
    }

    /** `handleKeyDown`: returns what it does to an element, if anything, and
        whether it calls `preventDefault`. */
    method HandleKeyDown(ev: KeyEvent) returns (action: Option<Action>, prevented: bool)
      requires Valid()
      modifies this
      ensures Valid()
      ensures Model() == KeyDown(old(Model()), ev).next
      ensures action == KeyDown(old(Model()), ev).action && prevented == KeyDown(old(Model()), ev).prevented
    {
      KeyDownValid(Model(), ev);
      action := None;
      prevented := false;
      if ev.key == "Escape" {
        prevented := true;
        RemoveHints();
        return;
      }
      if ev.key == "Shift" {
        shiftPressed := true;
        return;
      }
      if ev.ctrlKey || ev.altKey || ev.metaKey {
        return;
      }
      prevented := true;
      if shiftPressed {
        var searchText := partialMatch + Lower(ev.key);
        partialMatch := searchText;
        activeHints := TextMatches(hints, searchText);
        MatchesInOrder(hints, "", searchText);
        if |activeHints| == 1 {
          action := Some(ClickElement(activeHints[0].element));
          RemoveHints();
          return;
        }
        UpdateVisibleHints();
        return;
      }
      var key := Upper(ev.key);
      if |key| == 1 && IsLetter(key[0]) {
        partialMatch := partialMatch + key;
        activeHints := LabelMatches(hints, partialMatch);
        MatchesInOrder(hints, partialMatch, "");
        if |activeHints| == 1 {
          action := Some(ClickElement(activeHints[0].element));
          RemoveHints();
          return;
        }
        if |activeHints| == 0 {
          partialMatch := "";
          activeHints := hints;
          SubseqRefl(hints);
        }
        UpdateVisibleHints();
      }
    }

    /** `handleKeyUp`. */
    method HandleKeyUp(ev: KeyEvent)
      requires Valid()
      modifies this
      ensures Valid()
      ensures Model() == KeyUp(old(Model()), ev)
    {
      KeyUpValid(Model(), ev);
      if ev.key == "Shift" {
        shiftPressed := false;
      }
    }

    /** The document's key-down listener, attached while a session is live. */
    method OnKeyDown(ev: KeyEvent) returns (action: Option<Action>, prevented: bool)
      requires Valid()
      modifies this
      ensures Valid()
      ensures Model() == DeliverKeyDown(old(Model()), ev).next
      ensures action == DeliverKeyDown(old(Model()), ev).action
      ensures prevented == DeliverKeyDown(old(Model()), ev).prevented
    {
      DeliverValid(Model(), ev);
      action, prevented := None, false;
      if isActive {
        action, prevented := HandleKeyDown(ev);
      }
    }

    /** The document's key-up listener, attached while a session is live. */
    method OnKeyUp(ev: KeyEvent)
      requires Valid()
      modifies this
      ensures Valid()
      ensures Model() == DeliverKeyUp(old(Model()), ev)
    {
      DeliverValid(Model(), ev);
      if isActive {
        HandleKeyUp(ev);
      }
    }

    /** The runtime message listener set up by the constructor. */
    method OnMessage(msg: Message, page: Page)
      requires Valid()
      modifies this
      ensures Valid()
      ensures Model() == Engine.OnMessage(old(Model()), msg, page)
    {
      ActivateValid(Model(), page);
      if msg.action == "activateHints" {
        ActivateHints(page);
      }
    }
  }

  /** The loop of `updateVisibleHints`: marker k is displayed exactly when
      hint k is among the active hints. */
  method MarkerStates(hints: seq<Hint>, activeHints: seq<Hint>) returns (shown: seq<bool>)
    ensures |shown| == |hints|
    ensures forall k :: 0 <= k < |hints| ==> (shown[k] <==> hints[k] in activeHints)
  {
    shown := [];
    for k := 0 to |hints|
      invariant |shown| == k
      invariant forall i :: 0 <= i < k ==> shown[i] == (hints[i] in activeHints)
    {
      shown := shown + [hints[k] in activeHints];
    }
  }
}
