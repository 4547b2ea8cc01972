/** The step record: one captured interaction, as the content script sends it
    to the background and as the exporters read it. */
module Steps {
  import opened Wrappers

  /** The five kinds of recorded interaction. */
  datatype Action = Click | Input | Select | Submit | Navigate

  /** The `action` string a step carries. */
  function ActionName(a: Action): (r: string)
    ensures r != ""
  {
    match a
    case Click => "click"
    case Input => "input"
    case Select => "select"
    case Submit => "submit"
    case Navigate => "navigate"
  }

  /** A step. `selector` is "" for navigation, which has none; `labelText` (the `label` field) is
      `None` when no label was found; `value` is present for input and select
      only; `screenshot` is the captured data URL, attached by the background. */
  datatype Step = Step(
    id: string,
    timestamp: int,
    url: string,
    title: string,
    action: Action,
    selector: string,
    labelText: Option<string>,
    value: Option<string>,
    screenshot: Option<string>)

  /** JavaScript truthiness of an optional string field: present and not "". */
  predicate Truthy(o: Option<string>) {
    o.Some? && o.value != ""
  }

  /** `s.timestamp || Date.now()`: a zero timestamp is falsy and replaced by the current time. */
  function ShownTime(s: Step, now: int): int {
    if s.timestamp != 0 then s.timestamp else now
  }
}
