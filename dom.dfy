/** The page as the hint manager sees it: elements in document order with the
    few properties it reads, the visibility test `isElementVisible`, the
    candidate enumeration `findClickableElements` and the focus-or-click
    decision `clickElement`. Layout and computed style are inputs: each element
    carries the rectangle `getBoundingClientRect` would report and the three
    computed style properties the test reads. */
module Dom {
  import opened Collections

  /** A `DOMRect` in viewport coordinates. */
  datatype Rect = Rect(top: real, left: real, bottom: real, right: real, width: real, height: real)

  /** The computed style properties `visibility`, `display` and `opacity`,
      as the strings `getComputedStyle` returns. */
  datatype Style = Style(visibility: string, display: string, opacity: string)

  /** An element. `id` stands for object identity (two elements with equal
      properties are still different nodes); `tagName` is the upper-case name
      the DOM reports; `attributes` are the markup attributes the selectors
      test; `contentEditable` is the IDL property `clickElement` reads;
      `textContent` is None where the DOM gives null. */
  datatype Element = Element(
    id: nat,
    tagName: string,
    attributes: map<string, string>,
    contentEditable: string,
    textContent: Option<string>,
    rect: Rect,
    style: Style)

  datatype Viewport = Viewport(innerWidth: int, innerHeight: int)

  /** The document: its elements in document order, and the window size. */
  datatype Page = Page(elements: seq<Element>, viewport: Viewport)

  /** The attribute selector `[name="value"]`. */
  predicate HasAttribute(e: Element, name: string, value: string) {
    name in e.attributes && e.attributes[name] == value
  }

  /** `a, [role="link"]` */
  predicate IsLink(e: Element) {
    e.tagName == "A" || HasAttribute(e, "role", "link")
  }

  /** `button, [role="button"], input[type="button"], input[type="submit"]` */
  predicate IsButton(e: Element) {
    e.tagName == "BUTTON" || HasAttribute(e, "role", "button")
    || (e.tagName == "INPUT" && (HasAttribute(e, "type", "button") || HasAttribute(e, "type", "submit")))
  }

  /** `input[type="text"], input[type="search"], textarea, [contenteditable="true"]` */
  predicate IsTextField(e: Element) {
    (e.tagName == "INPUT" && (HasAttribute(e, "type", "text") || HasAttribute(e, "type", "search")))
    || e.tagName == "TEXTAREA" || HasAttribute(e, "contenteditable", "true")
  }

  /** `select` */
  predicate IsSelect(e: Element) {
    e.tagName == "SELECT"
  }

  /** `document.querySelectorAll(selector)`: the matching elements in document
      order. */
  function QueryAll(page: Page, selector: Element -> bool): (r: seq<Element>)
    ensures forall e :: e in r <==> e in page.elements && selector(e)
  {
    Filter(page.elements, selector)
  }

  /** `isElementVisible`: non-zero size, not wholly above or left of the
      viewport, not wholly below or right of it, and not hidden by the
      `visibility`, `display` or `opacity` style (the opacity compared as the
      string "0"). */
  predicate IsElementVisible(e: Element, vp: Viewport) {
    var r := e.rect;
    if r.width == 0.0 || r.height == 0.0 then false
    else if r.bottom < 0.0 || r.right < 0.0 then false
    else if r.top > vp.innerHeight as real || r.left > vp.innerWidth as real then false
    else if e.style.visibility == "hidden" || e.style.display == "none" || e.style.opacity == "0" then false
    else true
  }

  /** The candidates of one category that pass the visibility test. */
  function VisibleOnly(nodes: seq<Element>, vp: Viewport): seq<Element> {
    Filter(nodes, e => IsElementVisible(e, vp))
  }

  /** What `findClickableElements` returns: the visible links, then the
      visible buttons, then the visible text fields, then the visible selects,
      each group in document order. */
  function Candidates(page: Page): seq<Element> {
    VisibleOnly(QueryAll(page, IsLink), page.viewport)
    + VisibleOnly(QueryAll(page, IsButton), page.viewport)
    + VisibleOnly(QueryAll(page, IsTextField), page.viewport)
    + VisibleOnly(QueryAll(page, IsSelect), page.viewport)
  }

  /** One `forEach` of `findClickableElements`: push every visible node onto
      `found`. */
  method PushVisible(found: seq<Element>, nodes: seq<Element>, vp: Viewport) returns (r: seq<Element>)
    ensures r == found + VisibleOnly(nodes, vp)
  {
    r := found;
    for k := 0 to |nodes|
      invariant r == found + VisibleOnly(nodes[..k], vp)
    {
      assert nodes[..k + 1][..k] == nodes[..k];
      if IsElementVisible(nodes[k], vp) {
        r := r + [nodes[k]];
      }
    }
    assert nodes[..|nodes|] == nodes;
  }

  /** `findClickableElements`: the four queries in their fixed order, each
      filtered by visibility and pushed onto one list. */
  method FindClickableElements(page: Page) returns (clickable: seq<Element>)
    ensures clickable == Candidates(page)
  {
    clickable := [];
    clickable := PushVisible(clickable, QueryAll(page, IsLink), page.viewport);
    clickable := PushVisible(clickable, QueryAll(page, IsButton), page.viewport);
    clickable := PushVisible(clickable, QueryAll(page, IsTextField), page.viewport);
    clickable := PushVisible(clickable, QueryAll(page, IsSelect), page.viewport);
  }

  /** The number of the four category selectors an element matches. */
  function CategoryCount(e: Element): (n: nat)
    ensures n <= 4
  {
    (if IsLink(e) then 1 else 0) + (if IsButton(e) then 1 else 0)
    + (if IsTextField(e) then 1 else 0) + (if IsSelect(e) then 1 else 0)
  }

  /** An element is a candidate exactly when it is on the page, visible and
      matched by one of the four selectors. */
  lemma CandidateIff(page: Page, e: Element)
    ensures e in Candidates(page) <==>
      e in page.elements && IsElementVisible(e, page.viewport)
      && (IsLink(e) || IsButton(e) || IsTextField(e) || IsSelect(e))
  {
  }

  /** There is no de-duplication: a visible element appears once per selector
      it matches for each time it is on the page (an `<a role="button">` is a
      candidate twice). */
  lemma CandidateMultiplicity(page: Page, e: Element)
    ensures multiset(Candidates(page))[e] ==
      if IsElementVisible(e, page.viewport) then CategoryCount(e) * multiset(page.elements)[e] else 0
  {
    var vp := page.viewport;
    var m := multiset(page.elements)[e];
    var l := VisibleOnly(QueryAll(page, IsLink), vp);
    var b := VisibleOnly(QueryAll(page, IsButton), vp);
    var t := VisibleOnly(QueryAll(page, IsTextField), vp);
    var s := VisibleOnly(QueryAll(page, IsSelect), vp);
    assert multiset(Candidates(page))[e]
      == multiset(l)[e] + multiset(b)[e] + multiset(t)[e] + multiset(s)[e] by {
      assert Candidates(page) == l + b + t + s;
    }
    CategoryPart(page, IsLink, e);
    CategoryPart(page, IsButton, e);
    CategoryPart(page, IsTextField, e);
    CategoryPart(page, IsSelect, e);
    if IsElementVisible(e, vp) {
      CountTimes(e, m);
    }
  }

  lemma CountTimes(e: Element, m: nat)
    ensures CategoryCount(e) * m ==
      (if IsLink(e) then m else 0) + (if IsButton(e) then m else 0)
      + (if IsTextField(e) then m else 0) + (if IsSelect(e) then m else 0)
  {
    var a, b, c, d := IsLink(e), IsButton(e), IsTextField(e), IsSelect(e);
    assert CategoryCount(e) * m == (if a then 1 else 0) * m + (if b then 1 else 0) * m
      + (if c then 1 else 0) * m + (if d then 1 else 0) * m;
  }

  /** One category's share of the candidates. */
  lemma CategoryPart(page: Page, selector: Element -> bool, e: Element)
    ensures multiset(VisibleOnly(QueryAll(page, selector), page.viewport))[e] ==
      if IsElementVisible(e, page.viewport) && selector(e) then multiset(page.elements)[e] else 0
  {
    FilterCount(page.elements, selector, e);
    FilterCount(QueryAll(page, selector), x => IsElementVisible(x, page.viewport), e);
  }

  /** A point of the plane inside a rectangle (edges included). */
  predicate InRect(r: Rect, x: real, y: real) {
    r.left <= x <= r.right && r.top <= y <= r.bottom
  }

  /** A point inside the viewport (edges included). */
  predicate InViewport(vp: Viewport, x: real, y: real) {
    0.0 <= x <= vp.innerWidth as real && 0.0 <= y <= vp.innerHeight as real
  }

  /** The rectangle `getBoundingClientRect` reports: non-negative size,
      right and bottom edges at left + width and top + height. */
  predicate WellFormed(r: Rect) {
    r.width >= 0.0 && r.height >= 0.0 && r.right == r.left + r.width && r.bottom == r.top + r.height
  }

  /** Geometric reading of the test: for a well-formed rectangle and a window
      of non-negative size, an element is visible exactly when its box has
      area, shares at least one point with the viewport, and its style does not
      hide it. */
  lemma VisibleIffOnScreen(e: Element, vp: Viewport)
    requires WellFormed(e.rect) && vp.innerWidth >= 0 && vp.innerHeight >= 0
    ensures IsElementVisible(e, vp) <==>
      e.rect.width > 0.0 && e.rect.height > 0.0
      && (exists x: real, y: real :: InRect(e.rect, x, y) && InViewport(vp, x, y))
      && !(e.style.visibility == "hidden" || e.style.display == "none" || e.style.opacity == "0")
  {
    var r := e.rect;
    var x := if r.left < 0.0 then 0.0 else r.left;
    var y := if r.top < 0.0 then 0.0 else r.top;
    if IsElementVisible(e, vp) {
      assert InRect(r, x, y) && InViewport(vp, x, y);
    }
    if exists x: real, y: real :: InRect(r, x, y) && InViewport(vp, x, y) {
      var x0: real, y0: real :| InRect(r, x0, y0) && InViewport(vp, x0, y0);
      assert r.bottom >= 0.0 && r.right >= 0.0;
      assert r.top <= vp.innerHeight as real && r.left <= vp.innerWidth as real;
    }
  }

  /** What resolving a hint does to its element. */
  datatype Action = Focus(target: Element) | Click(target: Element)

  /** `clickElement`: focus an INPUT, a TEXTAREA or an element whose
      `contentEditable` property is "true"; click anything else. */
  function ClickElement(e: Element): (a: Action)
    ensures a.target == e
  {
    if e.tagName == "INPUT" || e.tagName == "TEXTAREA" || e.contentEditable == "true" then Focus(e)
    else Click(e)
  }

  /** Every text-field candidate is focused, given that an element whose
      `contenteditable` attribute is "true" reports the property as "true". */
  lemma TextFieldsAreFocused(e: Element)
    requires IsTextField(e)
    requires HasAttribute(e, "contenteditable", "true") ==> e.contentEditable == "true"
    ensures ClickElement(e).Focus?
  {
  }

  /** A link, button or select candidate (any tag carrying `role="link"` or
      `role="button"` included) is clicked exactly when it is neither an
      INPUT nor a TEXTAREA and its contentEditable is not "true"; otherwise
      it is focused. */
  lemma NonEditableControlsAreClicked(e: Element)
    requires IsLink(e) || IsButton(e) || IsSelect(e)
    ensures ClickElement(e).Click? <==>
      e.tagName != "INPUT" && e.tagName != "TEXTAREA" && e.contentEditable != "true"
    ensures ClickElement(e).Focus? <==> !ClickElement(e).Click?
  {
  }

  /** The button category also holds `input[type="button"]` and
      `input[type="submit"]`; being INPUT elements, these are focused rather
      than clicked. */
  lemma InputButtonsAreFocused(e: Element)
    requires IsButton(e) && e.tagName == "INPUT"
    ensures ClickElement(e).Focus?
  {
  }
}
