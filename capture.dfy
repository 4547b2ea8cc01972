/**
  The content script's event handlers: what a click, a change, a form
  submission or a same-page navigation turns into, and the masking of
  sensitive input values. Sending a step to the background is modelled as the
  handler's result (`None` when the handler returns without sending); the
  step's id, the clock, `location.href` and `document.title` arrive as a
  `PageContext`.
*/
module Capture {
  import opened Wrappers
  import opened Text
  import opened Dom
  import opened Steps
  import opened Locator
  import opened Labels

  /** The words of `MASKED_NAMES`, an alternation tested without regard to case. */
  const MaskedNames: seq<string> := ["pass", "pwd", "secret", "token", "card", "ssn", "email", "phone"]

  /** `p` occurs in `s` at `i` when ASCII letters are compared without regard to case. */
  predicate MatchesIgnoringCase(s: string, p: string, i: nat) {
    i + |p| <= |s| && forall j :: 0 <= j < |p| ==> LowerChar(s[i + j]) == LowerChar(p[j])
  }

  /** Some word of `words` occurs in the lower-cased `s`. */
  function AnyWordIn(s: string, words: seq<string>): (r: bool)
    ensures r <==> exists k :: 0 <= k < |words| && Contains(LowerAscii(s), words[k])
  {
    if words == [] then false
    else
      var rest := AnyWordIn(s, words[1..]);
      assert forall k :: 1 <= k < |words| ==> words[k] == words[1..][k - 1];
      Contains(LowerAscii(s), words[0]) || rest
  }

  /** `MASKED_NAMES.test(s)`. */
  function MaskedName(s: string): bool {
    AnyWordIn(s, MaskedNames)
  }

  /** A word with no upper-case ASCII letter. */
  predicate LowerWord(p: string) {
    forall j :: 0 <= j < |p| ==> LowerChar(p[j]) == p[j]
  }

  /** Searching the lower-cased text for a lower-case word is a case-blind search. */
  lemma OccursLowerIffIgnoringCase(s: string, p: string, i: nat)
    requires LowerWord(p)
    ensures OccursAt(LowerAscii(s), p, i) <==> MatchesIgnoringCase(s, p, i)
  {
    var l := LowerAscii(s);
    if i + |p| <= |s| {
      if MatchesIgnoringCase(s, p, i) {
        assert l[i..i + |p|] == p by {
          forall j | 0 <= j < |p| ensures l[i..i + |p|][j] == p[j] {
            assert l[i + j] == LowerChar(s[i + j]);
          }
        }
      }
      if OccursAt(l, p, i) {
        forall j | 0 <= j < |p| ensures LowerChar(s[i + j]) == LowerChar(p[j]) {
          assert l[i..i + |p|][j] == p[j];
        }
      }
    }
  }

  /** `MASKED_NAMES.test(s)` holds exactly when one of the words occurs in `s`
      with letters compared regardless of case, as the `/i` flag promises. */
  lemma MaskedNameIgnoresCase(s: string)
    ensures MaskedName(s) <==>
      exists k, i: nat :: 0 <= k < |MaskedNames| && MatchesIgnoringCase(s, MaskedNames[k], i)
  {
    forall k, i: nat | 0 <= k < |MaskedNames|
      ensures OccursAt(LowerAscii(s), MaskedNames[k], i) <==> MatchesIgnoringCase(s, MaskedNames[k], i)
    {
      assert LowerWord(MaskedNames[k]);
      OccursLowerIffIgnoringCase(s, MaskedNames[k], i);
    }
  }

  /** An input's value is sensitive when its type is `password` in any case, or
      its name or id contains one of the masked words. */
  predicate IsSensitive(inputType: string, name: string, id: string) {
    LowerAscii(inputType) == "password" || MaskedName(name) || MaskedName(id)
  }

  /** What `nowStep` adds to the handler's fields. */
  datatype PageContext = PageContext(id: string, now: int, url: string, title: string)

  /** `nowStep(base)`: the page context together with the handler's own fields. */
  function NowStep(ctx: PageContext, action: Action, selector: string, labelText: Option<string>, value: Option<string>): (s: Step)
    ensures s.id == ctx.id && s.timestamp == ctx.now && s.url == ctx.url && s.title == ctx.title
    ensures s.action == action && s.selector == selector && s.labelText == labelText && s.value == value
    ensures s.screenshot.None?
  {
    Step(ctx.id, ctx.now, ctx.url, ctx.title, action, selector, labelText, value, None)
  }

  /** The selector `button,a,[role='button'],input,select,textarea,[onclick]`. */
  predicate IsInteractive(e: Element) {
    e.HasTag("button") || e.HasTag("a") || e.GetAttribute("role") == Some("button")
    || e.HasTag("input") || e.HasTag("select") || e.HasTag("textarea") || "onclick" in e.attributes
  }

  /** The step `onClick` sends, if any: for the nearest interactive element
      around the target. */
  function ClickStep(target: Option<Node>, ctx: PageContext, document: seq<Element>, esc: string -> string): Option<Step> {
    if target.None? || target.value.OtherNode? then None
    else match Closest(target.value.element, IsInteractive)
      case None => None
      case Some(el) =>
        var node := Some(ElementNode(el));
        Some(NowStep(ctx, Click, SelectorOf(node, esc), LabelFor(node, document), None))
  }

  /** `onClick`. */
  method OnClick(target: Option<Node>, ctx: PageContext, document: seq<Element>, esc: string -> string)
    returns (sent: Option<Step>)
    ensures sent == ClickStep(target, ctx, document, esc)
  {
    if target.None? || target.value.OtherNode? {
      return None;
    }
    var el := Closest(target.value.element, IsInteractive);
    if el.None? {
      return None;
    }
    var node := Some(ElementNode(el.value));
    var selector := BuildSelector(node, esc);
    sent := Some(NowStep(ctx, Click, selector, LabelFor(node, document), None));
  }

  /** A click is recorded exactly when the target or one of its ancestors is
      interactive, and then it names the nearest such element. */
  lemma ClickNeedsInteractive(el: Element, ctx: PageContext, document: seq<Element>, esc: string -> string)
    ensures var s := ClickStep(Some(ElementNode(el)), ctx, document, esc);
      s.Some? <==> exists k: nat :: Ancestor(el, k).Some? && IsInteractive(Ancestor(el, k).value)
    ensures var s := ClickStep(Some(ElementNode(el)), ctx, document, esc);
      s.Some? ==> exists k: nat :: Ancestor(el, k).Some? && IsInteractive(Ancestor(el, k).value)
                    && s.value.selector == SelectorOf(Some(ElementNode(Ancestor(el, k).value)), esc)
                    && forall j :: 0 <= j < k ==> Ancestor(el, j).Some? && !IsInteractive(Ancestor(el, j).value)
  {
    var d := ClosestDepth(el, IsInteractive);
    if d.Some? {
      assert Ancestor(el, d.value).Some? && IsInteractive(Ancestor(el, d.value).value);
    }
  }

  /** The value a change event records for a text input or text area:
      blanked when masking is on and the field is sensitive. */
  function RecordedValue(mask: bool, inputType: string, name: string, id: string, value: string): string {
    if mask && IsSensitive(inputType, name, id) then "" else value
  }

  /** The step `onChange` sends, if any. */
  function ChangeStep(target: Option<Node>, ctx: PageContext, document: seq<Element>, esc: string -> string, mask: bool): Option<Step> {
    if target.None? || target.value.OtherNode? then None
    else
      var el := target.value.element;
      match el.control
      case NoControl => None
      case SelectBox(v) => Some(NowStep(ctx, Select, SelectorOf(target, esc), LabelFor(target, document), Some(v)))
      case InputBox(t, v) =>
        Some(NowStep(ctx, Input, SelectorOf(target, esc), LabelFor(target, document), Some(RecordedValue(mask, t, el.Name(), el.Id(), v))))
      case TextArea(v) =>
        Some(NowStep(ctx, Input, SelectorOf(target, esc), LabelFor(target, document), Some(RecordedValue(mask, "textarea", el.Name(), el.Id(), v))))
  }

  /** A sensitive field's value never leaves the page while masking is on. */
  lemma MaskedValueIsBlank(el: Element, ctx: PageContext, document: seq<Element>, esc: string -> string)
    requires el.control.InputBox? || el.control.TextArea?
    requires IsSensitive(if el.control.InputBox? then el.control.inputType else "textarea", el.Name(), el.Id())
    ensures var s := ChangeStep(Some(ElementNode(el)), ctx, document, esc, true);
      s.Some? && s.value.action == Input && s.value.value == Some("")
  {
  }

  /** A field that is not sensitive, or any field while masking is off, is
      recorded with its value as it is. */
  lemma UnmaskedValueIsKept(el: Element, ctx: PageContext, document: seq<Element>, esc: string -> string, mask: bool)
    requires el.control.InputBox? || el.control.TextArea?
    requires !mask || !IsSensitive(if el.control.InputBox? then el.control.inputType else "textarea", el.Name(), el.Id())
    ensures var s := ChangeStep(Some(ElementNode(el)), ctx, document, esc, mask);
      s.Some? && s.value.action == Input && s.value.value == Some(el.control.value)
  {
  }

  /** A select box's choice is recorded as it is, whatever its name and
      whatever the masking setting. */
  lemma SelectNeverMasked(el: Element, ctx: PageContext, document: seq<Element>, esc: string -> string, mask: bool)
    requires el.control.SelectBox?
    ensures var s := ChangeStep(Some(ElementNode(el)), ctx, document, esc, mask);
      s.Some? && s.value.action == Select && s.value.value == Some(el.control.value)
  {
  }

  /** A change on anything that is not a form control sends nothing. */
  lemma ChangeNeedsControl(target: Option<Node>, ctx: PageContext, document: seq<Element>, esc: string -> string, mask: bool)
    ensures ChangeStep(target, ctx, document, esc, mask).Some? <==>
      target.Some? && target.value.ElementNode? && !target.value.element.control.NoControl?
  {
  }

  /** A field whose type spells `password` in any mix of cases is always
      sensitive, whatever its name and id. */
  lemma PasswordIsSensitive(t: string, name: string, id: string)
    requires |t| == |"password"| && forall i :: 0 <= i < |t| ==> LowerChar(t[i]) == "password"[i]
    ensures IsSensitive(t, name, id)
  {
    assert LowerAscii(t) == "password";
  }

  /** `form.getAttribute("name") || form.getAttribute("aria-label") || "Form"`. */
  function SubmitLabel(form: Element): (r: string)
    ensures r != ""
    ensures form.GetAttribute("name").Some? && form.GetAttribute("name").value != "" ==> r == form.GetAttribute("name").value
    ensures (form.GetAttribute("name").GetOr("") == "" && form.GetAttribute("aria-label").GetOr("") != "")
              ==> r == form.GetAttribute("aria-label").value
    ensures (form.GetAttribute("name").GetOr("") == "" && form.GetAttribute("aria-label").GetOr("") == "")
              ==> r == "Form"
  {
    var name := form.GetAttribute("name").GetOr("");
    var aria := form.GetAttribute("aria-label").GetOr("");
    if name != "" then name else if aria != "" then aria else "Form"
  }

  /** The step `onSubmit` sends for the submitted form. */
  function SubmitStep(form: Element, ctx: PageContext, esc: string -> string): Step {
    NowStep(ctx, Submit, SelectorOf(Some(ElementNode(form)), esc), Some(SubmitLabel(form)), None)
  }

  /** `onSubmit`. */
  method OnSubmit(form: Element, ctx: PageContext, esc: string -> string) returns (sent: Step)
    ensures sent == SubmitStep(form, ctx, esc)
    ensures sent.action == Submit && Truthy(sent.labelText)
  {
    var selector := BuildSelector(Some(ElementNode(form)), esc);
    sent := NowStep(ctx, Submit, selector, Some(SubmitLabel(form)), None);
  }

  /** `sendNav`: the step recorded when the page navigates within itself
      (`pushState`, `replaceState`, `popstate`); it has no selector, label or value. */
  function NavigateStep(ctx: PageContext): (s: Step)
    ensures s.action == Navigate && s.selector == "" && s.labelText.None? && s.value.None?
    ensures s.url == ctx.url && s.timestamp == ctx.now
  {
    NowStep(ctx, Navigate, "", None, None)
  }

  /** The content script's settings: `cfg`. */
  class ContentScript {
    /** `cfg.maskSensitive`. */
    var maskSensitive: bool

    /** `let cfg = { maskSensitive: true }`. */
    constructor()
      ensures maskSensitive
    {
      maskSensitive := true;
    }

    /** The answer to `chrome.storage.sync.get({ maskSensitive: true }, …)`:
        the stored setting, or the default `true` when none is stored. */
    method OnStoredSettings(stored: Option<bool>)
      modifies this
      ensures maskSensitive == stored.GetOr(true)
    {
      maskSensitive := stored.GetOr(true);
    }

    /** `chrome.storage.onChanged`: only a change in the sync area that
        touches `maskSensitive` is applied; a removed setting (no new value)
        turns masking off. `change` is `changes.maskSensitive`, itself
        holding the optional `newValue`. */
    method OnStorageChanged(area: string, change: Option<Option<bool>>)
      modifies this
      ensures area == "sync" && change.Some? ==> maskSensitive == change.value.GetOr(false)
      ensures !(area == "sync" && change.Some?) ==> maskSensitive == old(maskSensitive)
    {
      if area != "sync" {
        return;
      }
      if change.Some? {
        maskSensitive := change.value.GetOr(false);
      }
    }

    /** `onChange`, under the current setting. */
    method OnChange(target: Option<Node>, ctx: PageContext, document: seq<Element>, esc: string -> string)
      returns (sent: Option<Step>)
      ensures sent == ChangeStep(target, ctx, document, esc, maskSensitive)
    {
      if target.None? || target.value.OtherNode? {
        return None;
      }
      var el := target.value.element;
      match el.control {
        case NoControl =>
          sent := None;
        case SelectBox(v) =>
          var selector := BuildSelector(target, esc);
          sent := Some(NowStep(ctx, Select, selector, LabelFor(target, document), Some(v)));
        case InputBox(t, v) =>
          var selector := BuildSelector(target, esc);
          var sensitive := IsSensitive(t, el.Name(), el.Id());
          var val := if maskSensitive && sensitive then "" else v;
          assert val == RecordedValue(maskSensitive, t, el.Name(), el.Id(), v);
          sent := Some(NowStep(ctx, Input, selector, LabelFor(target, document), Some(val)));
        case TextArea(v) =>
          var selector := BuildSelector(target, esc);
          var sensitive := IsSensitive("textarea", el.Name(), el.Id());
          var val := if maskSensitive && sensitive then "" else v;
          assert val == RecordedValue(maskSensitive, "textarea", el.Name(), el.Id(), v);
          sent := Some(NowStep(ctx, Input, selector, LabelFor(target, document), Some(val)));
      }
    }
  }
}
