# chrome-hints: the hint manager, modelled and verified in Dafny

chrome-hints is a browser extension for keyboard navigation. On a keyboard
command its content script, the `HintManager` class in `content.js`, does four
things:

- It finds the visible clickable elements of the page: links, then buttons,
  then text fields, then selects.
- It labels candidate *i* with the base-26 numeral of *i* over the letters
  A–Z ("A", "B", …, "Z", "BA", "BB", …).
- It narrows the candidates as the user types. In label mode it matches label
  prefixes; with Shift held it matches substrings of the element's
  lower-cased text.
- When exactly one candidate is left, it focuses that element (inputs,
  textareas, editable elements) or clicks it, and tears the session down.

This project models that class and proves what it does.

| file | module | what it holds |
|---|---|---|
| `labels.dfy` | `Labels` | `generateHintString` as a loop and as a function; the numeral properties |
| `text.dfy` | `Text` | `toLowerCase`, `toUpperCase` (ASCII letters), `includes` |
| `collections.dfy` | `Collections` | `Option`, an order-preserving `Filter`, subsequences |
| `dom.dfy` | `Dom` | elements and the page; the four selectors; `isElementVisible`; `findClickableElements` as a loop; `clickElement` |
| `matching.dfy` | `Matching` | hints, the label-prefix and text-substring filters, the label-shadowing facts |
| `engine.dfy` | `Engine` | the manager's fields as a value, one function per handler, the class invariant, one lemma per rule of the handlers |
| `selection.dfy` | `Selection` | whole sessions: typing a candidate's label, and at most one action per session |
| `manager.dfy` | `Manager` | the `HintManager` class; each handler method is proved to update the fields as the matching `Engine` function says, and `CreateHints` to append the hints `Matching.HintsFor` gives |
| `scenarios.dfy` | `Scenarios` | concrete sessions |

The main results:

- **Labels are exactly the canonical base-26 numerals.** A label is
  non-empty and uses only A–Z. It has length 1 iff its index is below 26, and
  a longer label never starts with "A". `Label` and `Value` are inverse
  bijections between indices and these numerals.
- **Labels are not prefix-free.** For *j* > 0, the label of *j* followed by
  "A" is the label of 26·*j*. So, with the Shift latch clear, typing the whole label of
  candidate *j* right after activation acts on candidate *j* exactly when
  *j* = 0 or there are at most 26·*j* candidates (`Selection.SelectByLabel`).
  With the latch set the same keys are a text search instead (next items).
  With 27 or more candidates, candidate "B" cannot be selected by its label. Typing "B" leaves both "B"
  and "BA" shown.
- **There is no de-duplication.** A visible element appears among the
  candidates once per selector group it matches (`Dom.CandidateMultiplicity`).
  An `<a role="button">` gets two labels.
- **One buffer is shared by both modes.** A capital typed in label mode stays
  in `partialMatch` when Shift is then held. Element texts are lower-cased,
  so every text-mode key then matches nothing (`Engine.LabelPrefixBlocksTextMode`).
- **The Shift latch survives teardown.** `removeHints` does not clear
  `shiftPressed`. The listeners are detached then, so a Shift key-up after a
  resolution is never seen, and the next session starts in text mode.
- **Message fields.** The message listener reads only `action`. The `mode`
  field and any other action are ignored.

Three consequences of the code worth stating outright:

- Labels are positional base 26 with A = 0, so index 26 is "BA"
  (`Labels.LabelExamples`).
- In label mode a letter resets the buffer exactly when the buffer followed
  by that letter is a prefix of no label (`Engine.LabelModeLetter`,
  `Scenarios.ResetOnUnmatchedLetter`). With 27 candidates, "B" followed by
  "C" resets, although "C" is itself a label.
- Right after activation, with the Shift latch clear and at least one
  candidate, "A" acts on candidate 0, because no other label starts with "A"
  (`Selection.SelectByLabel` with *j* = 0). With no candidates it matches
  nothing and the session stays live.

## Model

| member | source | states |
|---|---|---|
| Labels.GenerateHintString | content.js:24-34 | the do-while loop (first pass always, then while the quotient is non-zero) returns the label of the index |
| Labels.Label | content.js:24-34 | a label is a canonical numeral: non-empty, only A–Z, no leading "A" unless it is "A"; its length is 1 iff the index is below 26 |
| Labels.ValueOfLabel | content.js:28-31 | reading a label back in base 26 (A = 0, most significant digit first) gives its index |
| Labels.LabelOfValue | content.js:28-31 | every canonical numeral is the label of its value, so labels and canonical numerals are in bijection |
| Labels.LabelInjective | content.js:24-34 | different indices never share a label |
| Labels.ValueZero | content.js:28-31 | a numeral has value zero iff all its digits are "A" |
| Labels.ValueAppend | content.js:28-31 | the value of a concatenation is the value of the head shifted by the length of the tail, plus the tail's value |
| Labels.LabelExamples | content.js:24-34 | indices 0, 25, 26, 27, 675 and 676 give "A", "Z", "BA", "BB", "ZZ" and "BAA" |
| Labels.LabelChild | content.js:28-31 | the label of 26·j + d (j > 0) is the label of j followed by digit d |
| Labels.LabelPrefixOfChild | content.js:28-31 | the label of j > 0 is a proper prefix of the label of 26·j |
| Labels.ExtensionBound | content.js:28-31 | a label that strictly extends the label of j > 0 belongs to an index of at least 26·j |
| Labels.PrefixOfLabel | content.js:28-31 | every non-empty prefix of a label is the label of an index no larger, and of the same index only when it is the whole label |
| Text.Lower | content.js:114 | `toLowerCase` keeps the length and leaves no capital letter |
| Text.Upper | content.js:203 | `toUpperCase` keeps the length and leaves no lower-case letter |
| Text.Contains | content.js:187 | `includes`: the search text is a prefix of the text or of one of its suffixes |
| Text.ContainsIffOccurs | content.js:186-188 | `includes` holds iff the search text occurs at some position |
| Text.ContainsLonger | content.js:183-188 | a text containing p + q contains p |
| Text.NoCapitalNoMatch | content.js:183-188 | a text without capitals contains no search text with a capital |
| Text.UpperIsLetter | content.js:203-204 | a key upper-cases to a single A–Z character iff it is a single ASCII letter of either case |
| Collections.Filter | content.js:186-188 | `filter` keeps exactly the members satisfying the predicate, in order |
| Dom.IsLink | content.js:41 | the selector `a, [role="link"]`: tag A or attribute role = "link" |
| Dom.IsButton | content.js:49 | the selector `button, [role="button"], input[type="button"], input[type="submit"]` |
| Dom.IsTextField | content.js:57 | the selector `input[type="text"], input[type="search"], textarea, [contenteditable="true"]` |
| Dom.IsSelect | content.js:65 | the selector `select` |
| Dom.IsElementVisible | content.js:76-91 | the early returns: zero width or height, bottom or right below 0, top or left beyond the viewport, or hidden by visibility, display or opacity "0" make it false; otherwise true |
| Dom.Candidates | content.js:37-73 | the visible links, then visible buttons, then visible text fields, then visible selects, each in document order |
| Dom.QueryAll | content.js:41 | `querySelectorAll` returns exactly the page's elements that match the selector |
| Dom.PushVisible | content.js:42-46 | one `forEach` pushes the visible nodes onto the list, in order |
| Dom.FindClickableElements | content.js:37-73 | the loops return the visible links, buttons, text fields and selects, concatenated in that order |
| Dom.CandidateIff | content.js:37-73 | an element is a candidate iff it is on the page, visible and matched by one of the four selectors |
| Dom.CandidateMultiplicity | content.js:37-73 | a visible element occurs among the candidates once per matching selector group for each occurrence on the page; an invisible one never occurs |
| Dom.VisibleIffOnScreen | content.js:76-91 | for a well-formed box, the test holds iff the box has area, shares a point with the viewport and is not hidden by visibility, display or opacity |
| Dom.ClickElement | content.js:249-258 | the action targets the given element |
| Dom.TextFieldsAreFocused | content.js:249-258 | every text-field candidate is focused, given that an element with the attribute `contenteditable="true"` reports the property as "true" |
| Dom.NonEditableControlsAreClicked | content.js:249-258 | a link, button or select candidate, `role="link"` and `role="button"` elements of any tag included, is clicked iff it is neither INPUT nor TEXTAREA and its contentEditable is not "true"; otherwise it is focused |
| Dom.InputButtonsAreFocused | content.js:249-258 | `input[type=button]` and `input[type=submit]` candidates are focused, not clicked |
| Matching.TextOf | content.js:114 | the element's text content, or the empty string where the DOM gives null |
| Matching.HintsFor | content.js:94-118 | one hint per element |
| Matching.HintsForWellLabelled | content.js:94-118 | hint k carries element k, the label of k and the lower-cased text of element k |
| Matching.HintsDistinct | content.js:110-115 | the hints of a session are pairwise different, even for an element enumerated twice |
| Matching.LabelMatches | content.js:208-210 | exactly the hints whose label starts with the buffer are kept |
| Matching.TextMatches | content.js:186-188 | exactly the hints whose element text contains the search text are kept |
| Matching.MatchesInOrder | content.js:186-210 | both filters keep the surviving hints in their original order |
| Matching.EmptyPrefixMatchesAll | content.js:220-223 | after a reset the empty buffer matches every hint |
| Matching.TextMatchesNarrow | content.js:183-188 | extending the search text can only narrow the text matches, in order |
| Matching.CapitalMatchesNothing | content.js:183-188 | a search text with a capital letter matches no hint |
| Matching.FullLabelUnique | content.js:204-217 | the whole label of j selects hint j alone when j = 0 or there are at most 26·j hints |
| Matching.ShadowedLabel | content.js:204-217 | when hint 26·j exists, every buffer matching hint j also matches hint 26·j |
| Matching.ProperPrefixMatchesTwo | content.js:204-217 | a non-empty proper prefix of a label matches at least two hints |
| Matching.FullLabelShadowed | content.js:204-217 | when hint 26·j exists, the whole label of j matches at least two hints |
| Matching.ChildText | content.js:94-118 | the label of hint 26·j extends the label of hint j |
| Engine.Remove | content.js:142-157 | `removeHints`: hints, active hints, markers and buffer cleared, inactive; the Shift latch kept |
| Engine.Activate | content.js:122-139 | `activateHints`: a live session is torn down; otherwise the candidates are labelled, all hints are active, all markers shown, the buffer is empty |
| Engine.KeyDown | content.js:160-228 | `handleKeyDown`: Escape, then Shift, then modifiers, then text mode with the latch set, otherwise label mode, in the source's order |
| Engine.KeyUp | content.js:231-235 | `handleKeyUp`: a Shift key-up clears the latch; any other key changes nothing |
| Engine.UpdateVisible | content.js:238-246 | `updateVisibleHints`: marker k is displayed iff hint k is active |
| Engine.OnMessage | content.js:16-19 | the message listener activates on action `activateHints` and ignores every other message |
| Engine.DeliverKeyDown | content.js:137-156 | the key-down listener is attached only while a session is live, so the handler runs only then |
| Engine.DeliverKeyUp | content.js:137-156 | the key-up listener is attached only while a session is live, so the handler runs only then |
| Engine.InitialValid | content.js:2-8 | the constructor's state keeps the invariant, inactive and unlatched |
| Engine.RemoveValid | content.js:142-157 | teardown keeps the invariant, deactivates and keeps the latch |
| Engine.ActivateValid | content.js:122-139 | activation keeps the invariant |
| Engine.UpdateVisibleValid | content.js:238-246 | updating the markers keeps the invariant |
| Engine.KeyDownValid | content.js:160-228 | every key-down keeps the invariant |
| Engine.KeyUpValid | content.js:231-235 | every key-up keeps the invariant and the session |
| Engine.DeliverValid | content.js:137-138 | delivering key events keeps the invariant |
| Engine.ActivateStartsSession | content.js:122-139 | activating an inactive manager labels candidate k with the label of k, snapshots its lower-cased text, shows every hint and marker, empties the buffer and keeps the latch |
| Engine.ActivateWhileActiveCancels | content.js:123-126 | activating during a session tears it down and keeps only the latch |
| Engine.ActivateTwiceIsCancel | content.js:122-165 | from an inactive manager, two activations in a row equal one activation followed by Escape, and equal a teardown of the start state |
| Engine.EscapeCancels | content.js:162-166 | Escape tears down from any state, even with a modifier, and prevents the default |
| Engine.ShiftLatch | content.js:169-235 | a Shift key-down sets the latch and nothing else; only a Shift key-up clears it; teardown keeps it |
| Engine.ModifiedKeysIgnored | content.js:175-177 | a key with Ctrl, Alt or Meta (other than Escape or Shift) changes nothing and is let through |
| Engine.InactiveIgnoresKeys | content.js:137-156 | with no session live, key events change nothing |
| Engine.LabelModeIgnoresNonLetters | content.js:203-204 | in label mode a key that is not a single letter changes no state |
| Engine.LabelModeLetter | content.js:203-227 | in label mode a letter appends its capital to the buffer. One match resolves it and tears down; none resets the buffer and shows every hint; several narrow the shown hints. Markers follow the shown hints |
| Engine.LabelModeStaysConsistent | content.js:203-227 | in label mode the shown hints always equal the hints matching the buffer |
| Engine.TextModeKey | content.js:182-199 | in text mode the lower-cased key is appended to the buffer, and the shown hints are those whose text contains it. One match resolves; no match does not reset |
| Engine.TextModeNarrows | content.js:182-199 | in text mode each unresolved key narrows the shown hints, in order |
| Engine.LabelPrefixBlocksTextMode | content.js:182-205 | a capital left in the shared buffer makes every text-mode key match nothing, and it stays in the buffer |
| Engine.ActionOnlyOnResolution | content.js:191-216 | a key-down acts on an element only by resolving one of the current hints, and then tears down |
| Engine.MessageModeIgnored | content.js:16-19 | the message's mode is ignored, and any action other than `activateHints` is ignored |
| Selection.LetterStep | content.js:203-217 | with the Shift latch clear, a letter during a live session resolves on one match and narrows on several |
| Selection.TypeWordResolves | content.js:203-217 | with the Shift latch clear, letters whose every proper prefix is ambiguous and whose whole word matches one hint act on that hint and return the manager to its initial state |
| Selection.TypeWordPending | content.js:203-227 | with the Shift latch clear, letters whose every prefix is ambiguous act on nothing and leave the session live, with the word in the buffer |
| Selection.SelectFrom | content.js:203-217 | from a fresh session with the Shift latch clear, the label of j acts on hint j iff j = 0 or there are at most 26·j hints; otherwise the session stays live |
| Selection.SelectByLabel | content.js:122-217 | right after activation with the Shift latch clear, typing the label of candidate j acts on candidate j iff j = 0 or there are at most 26·j candidates, and acts on nothing otherwise |
| Selection.AtMostOneAction | content.js:191-216 | a run of key-downs acts on at most one element, and only on an element of a current hint |
| Selection.NoActionWhileInactive | content.js:137-156 | key-downs with no session live change nothing |
| Manager.HintManager.constructor | content.js:2-8 | the fields start empty, inactive and unlatched, and satisfy the invariant |
| Manager.HintManager.CreateHints | content.js:94-119 | the loop appends one hint per element, labelled by its position and with its marker shown; then every hint is active |
| Manager.HintManager.PushHint | content.js:95-115 | one pass of the `forEach` appends the element's hint, carrying the label of its index and its lower-cased text, and a shown marker; nothing else changes |
| Manager.HintManager.RemoveHints | content.js:142-157 | from any state, the fields become those of a teardown and satisfy the invariant |
| Manager.HintManager.ActivateHints | content.js:122-139 | from any state, the fields become those of an activation of the page and satisfy the invariant |
| Manager.HintManager.UpdateVisibleHints | content.js:238-246 | the markers become those the marker function computes, and the invariant is kept |
| Manager.MarkerStates | content.js:239-245 | the `forEach` loop yields one flag per hint, set iff the hint is among the active hints |
| Manager.HintManager.HandleKeyDown | content.js:160-228 | the fields, the returned action and the default-prevented flag are those of the key-down function, and the invariant is kept |
| Manager.HintManager.HandleKeyUp | content.js:231-235 | the fields become those of the key-up function, and the invariant is kept |
| Manager.HintManager.OnKeyDown | content.js:137-138 | the key-down listener runs the handler only while a session is live, and keeps the invariant |
| Manager.HintManager.OnKeyUp | content.js:137-138 | the key-up listener runs the handler only while a session is live, and keeps the invariant |
| Manager.HintManager.OnMessage | content.js:16-19 | the message listener activates on `activateHints` and keeps the invariant |
| Scenarios.ThreeCandidates | content.js:203-217 | with the Shift latch clear and three candidates, typing "b" acts on the second one and ends the session |
| Scenarios.ResetOnUnmatchedLetter | content.js:220-226 | with the Shift latch clear and three candidates, "d" resets the buffer and shows every hint, and the session stays live |
| Scenarios.ShadowedSecondCandidate | content.js:203-217 | with the Shift latch clear and 27 candidates, typing "b" acts on nothing and the session stays live |
| Scenarios.TextSearchSelects | content.js:182-195 | with Shift held, "s" picks "Submit" over "Cancel" and acts on it |

## Left out

- `background.js`: keyboard-command and idle plumbing of the browser. It
  sends `activateHints` (with a `mode` of `normal`, `newTab` or
  `newTabSwitch`) and `precomputeHints` to the content script; the manager's
  side of them is `OnMessage`. It also opens tabs on `openInNewTab` and
  `openAndSwitchToTab` messages (background.js:64-89), which content.js never
  sends, so that path is not modelled.
- DOM effects are not performed:
  - Marker creation, pixel positioning with scroll offsets, and insertion and
    removal of the marker nodes (content.js:97-108, 143-147). The markers are
    a list of displayed/hidden flags, one per hint.
  - `addEventListener` and `removeEventListener`. The listeners are taken to
    be attached exactly while `isActive` holds.
  - `preventDefault` is returned as a flag, and `focus()` or `click()` as an
    `Action`.
- Layout and style are inputs. Each element carries the rectangle and the
  three computed style strings the visibility test reads. Rectangle fields
  are reals, not IEEE doubles.
- Elements are taken to be HTML elements. Non-HTML (such as SVG) elements
  are not modelled: they report a lower-case tagName and have no `click()`.
  The lines below name what this leaves out, member by member.
- Dom.IsLink: compares tagName with "A", so an SVG `<a>` (tagName "a"),
  which the `a` selector matches, is not a candidate in the model.
- Dom.IsButton: compares the `type` attribute case-sensitively, whereas HTML
  matches it case-insensitively; `<input type="Submit">` is a button in the
  browser but not in the model.
- Dom.IsTextField: compares the `type` attribute case-sensitively;
  `type="Text"` or `type="Search"` inputs are text fields in the browser but
  not in the model.
- Dom.ClickElement: has no error outcome. For a non-HTML element matched by
  `[role="link"]` or `[role="button"]`, `element.click()` throws a TypeError,
  while the model returns Click.
- Engine.KeyDown: resolution always tears the session down. When
  `clickElement` throws (a non-HTML element, above), the source skips
  `removeHints()`, so the session stays live with the extended buffer,
  `activeHints` holding the one hint and the markers not updated; the model
  does not capture that outcome.
- Text.Lower, Text.Upper: only ASCII letters change case. Unicode case mapping
  is not modelled, including mappings that change length (such as "ß" to
  "SS") and mappings of non-ASCII letters onto A–Z.
- Hint identity: `updateVisibleHints` compares hint objects by identity. The
  model compares hint values, which agrees because a session's hints are
  pairwise distinct (`Matching.HintsDistinct`). Element identity is the `id`
  field.
- `textContent` is an input of each element. How the DOM computes it from
  descendant text is not modelled.
- Engine.Type and Selection: a run of keys models key-downs only. Key-ups
  between them (and so Shift pressed mid-word) appear only in the single-step
  lemmas.
- content.js has no candidate cache, no freshness expiry or debounce and no
  de-duplication. It has no activation modes (it ignores `mode`) and never
  asks for a new tab. The `precomputeHints` message is ignored like any other
  action but `activateHints`.
