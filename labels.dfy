/**
  `labelFor`: the human-readable label of a target element, found by trying a
  fixed list of sources in order and taking the first that offers any text.
  `document` is the sequence of elements in document order that
  `querySelector` searches.
*/
module Labels {
  import opened Wrappers
  import opened Text
  import opened Dom

  /** Where a label can come from, in the order they are tried. */
  datatype Source =
    | AriaLabel       // the aria-label attribute
    | AltText         // the alt attribute
    | NameAttribute   // the name attribute
    | LabelElement    // the first `<label for=id>` in the document
    | OwnText         // the element's own text, for BUTTON and A only
    | EnclosingLabel  // the nearest `label` or `[role='button']`, the element included

  const Sources: seq<Source> :=
    [AriaLabel, AltText, NameAttribute, LabelElement, OwnText, EnclosingLabel]

  /** `label[for="id"]` matches `e`. */
  predicate IsLabelFor(e: Element, id: string) {
    e.HasTag("label") && e.GetAttribute("for") == Some(id)
  }

  /** `document.querySelector('label[for="…"]')`: the position of the first
      matching element in document order. */
  function FirstLabelFor(document: seq<Element>, id: string): (r: Option<nat>)
    ensures r.Some? ==> r.value < |document| && IsLabelFor(document[r.value], id)
    ensures r.Some? ==> forall j :: 0 <= j < r.value ==> !IsLabelFor(document[j], id)
    ensures r.None? ==> forall j :: 0 <= j < |document| ==> !IsLabelFor(document[j], id)
  {
    if document == [] then None
    else if IsLabelFor(document[0], id) then Some(0)
    else
      var r := FirstLabelFor(document[1..], id);
      assert forall j :: 1 <= j < |document| ==> document[j] == document[1..][j - 1];
      if r.Some? then Some(r.value + 1) else None
  }

  /** The selector `label,[role='button']`. */
  predicate IsEnclosingLabel(e: Element) {
    e.HasTag("label") || e.GetAttribute("role") == Some("button")
  }

  /** `el.tagName === "BUTTON" || el.tagName === "A"`: compared as written, upper case. */
  predicate IsButtonOrLink(el: Element) {
    el.tagName == "BUTTON" || el.tagName == "A"
  }

  /** The raw text source `src` offers for `el`, before trimming; "" when it offers none. */
  function Offered(el: Element, document: seq<Element>, src: Source): string {
    match src
    case AriaLabel => el.GetAttribute("aria-label").GetOr("")
    case AltText => el.GetAttribute("alt").GetOr("")
    case NameAttribute => el.GetAttribute("name").GetOr("")
    case LabelElement =>
      if el.Id() == "" then ""
      else (match FirstLabelFor(document, el.Id())
            case Some(k) => document[k].Text()
            case None => "")
    case OwnText => if IsButtonOrLink(el) then el.Text() else ""
    case EnclosingLabel =>
      match Closest(el, IsEnclosingLabel)
      case Some(m) => m.Text()
      case None => ""
  }

  /** Attribute values are only trimmed; texts are also collapsed to single blanks. */
  function Finish(src: Source, t: string): string {
    if src == AriaLabel || src == AltText || src == NameAttribute then Trim(t) else Normalize(t)
  }

  /** The position in `srcs` of the first source that offers some text. */
  function FirstOffering(el: Element, document: seq<Element>, srcs: seq<Source>): (r: Option<nat>)
    ensures r.Some? ==> r.value < |srcs| && Offered(el, document, srcs[r.value]) != ""
    ensures r.Some? ==> forall j :: 0 <= j < r.value ==> Offered(el, document, srcs[j]) == ""
    ensures r.None? ==> forall j :: 0 <= j < |srcs| ==> Offered(el, document, srcs[j]) == ""
  {
    if srcs == [] then None
    else if Offered(el, document, srcs[0]) != "" then Some(0)
    else
      var r := FirstOffering(el, document, srcs[1..]);
      assert forall j :: 1 <= j < |srcs| ==> srcs[j] == srcs[1..][j - 1];
      if r.Some? then Some(r.value + 1) else None
  }

  /** `labelFor`, the early-return chain as written: each test `if (x)` is
      "source x offers text". */
  function LabelFor(node: Option<Node>, document: seq<Element>): (r: Option<string>)
    ensures node.None? || node.value.OtherNode? ==> r.None?
  {
    if node.None? || node.value.OtherNode? then None
    else
      var el := node.value.element;
      var aria := Offered(el, document, AriaLabel);
      if aria != "" then Some(Trim(aria))
      else
        var alt := Offered(el, document, AltText);
        if alt != "" then Some(Trim(alt))
        else
          var name := Offered(el, document, NameAttribute);
          if name != "" then Some(Trim(name))
          else
            var fromLabel := Offered(el, document, LabelElement);
            if fromLabel != "" then Some(Normalize(fromLabel))
            else
              var own := Offered(el, document, OwnText);
              if own != "" then Some(Normalize(own))
              else
                var enclosing := Offered(el, document, EnclosingLabel);
                if enclosing != "" then Some(Normalize(enclosing))
                else None
  }

  /** What the first offering source offers, finished as that source requires. */
  function LabelFromSources(el: Element, document: seq<Element>): Option<string> {
    match FirstOffering(el, document, Sources)
    case Some(k) => Some(Finish(Sources[k], Offered(el, document, Sources[k])))
    case None => None
  }

  /** The early-return chain is the ordered search through `Sources`: the label
      is the first source with text, trimmed for attributes and normalised for texts. */
  lemma LabelForIsFirstSource(el: Element, document: seq<Element>)
    ensures LabelFor(Some(ElementNode(el)), document) == LabelFromSources(el, document)
  {
    if Offered(el, document, AriaLabel) != "" {
      FirstOfferingIs(el, document, Sources, 0);
    } else if Offered(el, document, AltText) != "" {
      FirstOfferingIs(el, document, Sources, 1);
    } else if Offered(el, document, NameAttribute) != "" {
      FirstOfferingIs(el, document, Sources, 2);
    } else {
      LabelFromTexts(el, document);
    }
  }

  /** The second half of the chain, once no attribute offers text. */
  lemma LabelFromTexts(el: Element, document: seq<Element>)
    requires Offered(el, document, AriaLabel) == ""
    requires Offered(el, document, AltText) == ""
    requires Offered(el, document, NameAttribute) == ""
    ensures LabelFor(Some(ElementNode(el)), document) == LabelFromSources(el, document)
  {
    if Offered(el, document, LabelElement) != "" {
      FirstOfferingIs(el, document, Sources, 3);
    } else {
      LabelFromOwnOrEnclosing(el, document);
    }
  }

  /** The last two links of the chain. */
  lemma LabelFromOwnOrEnclosing(el: Element, document: seq<Element>)
    requires Offered(el, document, AriaLabel) == ""
    requires Offered(el, document, AltText) == ""
    requires Offered(el, document, NameAttribute) == ""
    requires Offered(el, document, LabelElement) == ""
    ensures LabelFor(Some(ElementNode(el)), document) == LabelFromSources(el, document)
  {
    if Offered(el, document, OwnText) != "" {
      FirstOfferingIs(el, document, Sources, 4);
    } else if Offered(el, document, EnclosingLabel) != "" {
      FirstOfferingIs(el, document, Sources, 5);
    } else {
      assert forall j :: 0 <= j < |Sources| ==> Offered(el, document, Sources[j]) == "";
    }
  }

  /** `FirstOffering` finds `k` when source `k` offers text and none before it does. */
  lemma FirstOfferingIs(el: Element, document: seq<Element>, srcs: seq<Source>, k: nat)
    requires k < |srcs| && Offered(el, document, srcs[k]) != ""
    requires forall j :: 0 <= j < k ==> Offered(el, document, srcs[j]) == ""
    ensures FirstOffering(el, document, srcs) == Some(k)
  {
  }

  /** A label found is trimmed: it neither starts nor ends with white space. A
      label taken from text rather than an attribute also has no run of white
      space and no white space other than blanks. */
  lemma LabelIsTidy(node: Option<Node>, document: seq<Element>)
    requires LabelFor(node, document).Some?
    ensures var t := LabelFor(node, document).value;
      t == [] || (!IsSpace(t[0]) && !IsSpace(t[|t| - 1]))
    ensures var el := node.value.element;
      var k := FirstOffering(el, document, Sources);
      k.Some? && k.value >= 3 ==> SingleBlanks(LabelFor(node, document).value)
  {
    var el := node.value.element;
    LabelForIsFirstSource(el, document);
    var k := FirstOffering(el, document, Sources).value;
    var raw := Offered(el, document, Sources[k]);
    if k < 3 {
      assert Sources[k] == AriaLabel || Sources[k] == AltText || Sources[k] == NameAttribute;
    } else {
      assert Sources[k] != AriaLabel && Sources[k] != AltText && Sources[k] != NameAttribute;
      NormalizeShape(raw);
    }
  }

  /** The aria-label, when it holds any text, is the label, even if it is only
      white space (which trims to ""). */
  lemma AriaLabelFirst(el: Element, document: seq<Element>)
    requires el.GetAttribute("aria-label").Some? && el.GetAttribute("aria-label").value != ""
    ensures LabelFor(Some(ElementNode(el)), document) == Some(Trim(el.GetAttribute("aria-label").value))
  {
  }

  /** A text-less element with no label attributes, no `<label for>` and no
      enclosing label gets no label. */
  lemma NoSourceNoLabel(el: Element, document: seq<Element>)
    requires forall j :: 0 <= j < |Sources| ==> Offered(el, document, Sources[j]) == ""
    ensures LabelFor(Some(ElementNode(el)), document).None?
  {
    LabelForIsFirstSource(el, document);
  }
}
