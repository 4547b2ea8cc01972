/**
  A finite, read-only view of the document tree as the content script sees it
  at the moment of an event. Each element carries its ancestor chain (its
  `parentElement`, recursively), the tag names of its earlier element
  siblings and its rendered text, which is all the locator and the label
  resolver ever look at.
*/
module Dom {
  import opened Wrappers
  import opened Text

  /** What kind of form control an element is; decides what a change event records. */
  datatype Control =
    | NoControl
      /** an `HTMLSelectElement` with its current `value` */
    | SelectBox(value: string)
      /** an `HTMLInputElement`: its `type` property and current `value` */
    | InputBox(inputType: string, value: string)
      /** an `HTMLTextAreaElement` (whose `type` property is "textarea") */
    | TextArea(value: string)

  /** An element. `tagName` is as the DOM reports it (upper case for HTML
      elements); `earlierSiblings` holds the tag names of the element siblings
      that precede it, nearest first (the `previousElementSibling` chain). */
  datatype Element = Element(
    tagName: string,
    attributes: map<string, string>,
    parent: Option<Element>,
    earlierSiblings: seq<string>,
    innerText: string,
    textContent: string,
    control: Control)
  {
    /** `getAttribute(name)`: `None` plays `null`. */
    function GetAttribute(name: string): Option<string> {
      if name in attributes then Some(attributes[name]) else None
    }

    /** `el.id`, which reflects the id attribute. */
    function Id(): string {
      GetAttribute("id").GetOr("")
    }

    /** `el.name` of a form control, which reflects the name attribute. */
    function Name(): string {
      GetAttribute("name").GetOr("")
    }

    /** `el.className || ""`: the class attribute. */
    function ClassName(): string {
      GetAttribute("class").GetOr("")
    }

    /** `el.innerText || el.textContent`. */
    function Text(): string {
      if innerText != "" then innerText else textContent
    }

    /** A type selector such as `button` matches an HTML element whatever the case of its tag. */
    predicate HasTag(tag: string) {
      LowerAscii(tagName) == tag
    }
  }

  /** An event target or a node handed to the locator: an element, or some
      other node (text, comment, document), which has neither `getAttribute`
      nor `closest`. */
  datatype Node = ElementNode(element: Element) | OtherNode

  /** The `k`-th element on the way up from `el`: `el` itself for `k == 0`,
      then `parentElement`, and so on; `None` past the root. */
  function Ancestor(el: Element, k: nat): Option<Element>
    decreases el
  {
    if k == 0 then Some(el)
    else match el.parent
      case None => None
      case Some(p) => Ancestor(p, k - 1)
  }

  /** How far up `el.closest(selector)` finds a match, for a selector given as a
      predicate: the first `k` whose ancestor matches, checking `el` itself first. */
  function ClosestDepth(el: Element, matches: Element -> bool): (r: Option<nat>)
    ensures r.Some? ==> Ancestor(el, r.value).Some? && matches(Ancestor(el, r.value).value)
    ensures r.Some? ==> forall j :: 0 <= j < r.value ==> Ancestor(el, j).Some? && !matches(Ancestor(el, j).value)
    ensures r.None? ==> forall j: nat :: Ancestor(el, j).Some? ==> !matches(Ancestor(el, j).value)
    decreases el
  {
    if matches(el) then Some(0)
    else match el.parent
      case None =>
        assert forall j: nat :: j > 0 ==> Ancestor(el, j).None?;
        None
      case Some(p) =>
        var d := ClosestDepth(p, matches);
        assert forall j: nat :: j > 0 ==> Ancestor(el, j) == Ancestor(p, j - 1);
        if d.Some? then Some(d.value + 1) else None
  }

  /** `el.closest(selector)`: the nearest element, starting with `el`, that matches. */
  function Closest(el: Element, matches: Element -> bool): Option<Element> {
    match ClosestDepth(el, matches)
    case Some(k) => Ancestor(el, k)
    case None => None
  }
}
