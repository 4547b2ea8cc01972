/**
  `stepsToDocHtml` and `stepsToPdfHtml`: the recording as an HTML document,
  in the plain layout meant for word processors and in the print layout
  meant for saving as PDF. A document is a sequence of parts: fixed markup,
  recorded text (always passed through `escHtml`), numbers, and screenshot
  data URLs (placed in an `src` attribute as they are). `clock` is
  `Date.now()` and `fmtTime` is `toLocaleString`.
*/
module HtmlExport {
  import opened Wrappers
  import opened Text
  import opened Steps
  import opened Escaping

  datatype Part =
    | Markup(text: string)
    | Escaped(raw: string)
    | Number(n: int)
    | ImageSrc(url: string)

  function RenderPart(p: Part): string {
    match p
    case Markup(t) => t
    case Escaped(r) => EscHtml(r)
    case Number(n) => IntToString(n)
    case ImageSrc(u) => u
  }

  function Render(parts: seq<Part>): string {
    if parts == [] then "" else RenderPart(parts[0]) + Render(parts[1..])
  }

  /** The metadata rows of a step. */
  datatype Meta = PageTitle | Url | Selector | InputValue | Time

  /** One metadata row and the text it shows. */
  datatype Item = Item(key: Meta, text: string)

  /** Some row of `items` is a `k` row. */
  predicate HasMeta(items: seq<Item>, k: Meta) {
    items != [] && (items[0].key == k || HasMeta(items[1..], k))
  }

  lemma {:induction false} HasMetaAppend(a: seq<Item>, b: seq<Item>, k: Meta)
    ensures HasMeta(a + b, k) <==> HasMeta(a, k) || HasMeta(b, k)
  {
    if a == [] {
      assert a + b == b;
    } else {
      assert (a + b)[1..] == a[1..] + b;
      HasMetaAppend(a[1..], b, k);
    }
  }

  lemma HasMetaOne(x: Item, k: Meta)
    ensures HasMeta([x], k) <==> x.key == k
  {
    assert [x][1..] == [];
  }

  /** Whether a row shows its text in the code style. */
  predicate IsCode(k: Meta) {
    k == Selector || k == InputValue
  }

  // ---------------------------------------------------------------------
  // The plain document

  function DocName(k: Meta): string {
    match k
    case PageTitle => "Page"
    case Url => "URL"
    case Selector => "Selector"
    case InputValue => "Value"
    case Time => "Time"
  }

  /** The markup before a row's text: `<div class="meta"><b>Name:</b> `, and
      the code style's opening tag for a code row. */
  function DocRowOpen(k: Meta): string {
    "<div class=\"meta\"><b>" + DocName(k) + ":</b> " + (if IsCode(k) then "<span class=\"code\">" else "")
  }

  /** The markup after a row's text. */
  function DocRowClose(k: Meta): string {
    (if IsCode(k) then "</span>" else "") + "</div>"
  }

  /** `<div class="meta"><b>Name:</b> text</div>`. */
  function DocRow(x: Item): seq<Part> {
    [Markup(DocRowOpen(x.key)), Escaped(x.text), Markup(DocRowClose(x.key))]
  }

  function DocRows(items: seq<Item>): seq<Part> {
    if items == [] then [] else DocRow(items[0]) + DocRows(items[1..])
  }

  /** The rows of a step in the plain document: page and URL always, selector
      and value when the step has them, then the time. */
  function DocItems(s: Step, clock: int, fmtTime: int -> string): seq<Item> {
    [Item(PageTitle, s.title), Item(Url, s.url)]
    + (if s.selector != "" then [Item(Selector, s.selector)] else [])
    + (if Truthy(s.value) then [Item(InputValue, s.value.value)] else [])
    + [Item(Time, fmtTime(ShownTime(s, clock)))]
  }

  const LabelSep: string := " — "

  /** `Step n: action — label`, the label only when there is one. */
  function Heading(s: Step): seq<Part> {
    [Escaped(ActionName(s.action))]
    + (if Truthy(s.labelText) then [Markup(LabelSep), Escaped(s.labelText.value)] else [])
  }

  // The fixed markup of a plain-document block.
  const DocStepOpen: string := "\n<div class=\"step\"><h2>Step "
  const DocTitleSep: string := ": "
  const DocTitleClose: string := "</h2>"
  const DocShotOpen: string := "<div><img src=\""
  const DocShotClose: string := "\" /></div>"
  const DocStepClose: string := "</div>"

  /** The block of step number `n` (counted from 1). */
  function DocStep(s: Step, n: nat, clock: int, fmtTime: int -> string): seq<Part> {
    [Markup(DocStepOpen), Number(n), Markup(DocTitleSep)] + Heading(s) + [Markup(DocTitleClose)]
    + DocRows(DocItems(s, clock, fmtTime))
    + (if Truthy(s.screenshot) then [Markup(DocShotOpen), ImageSrc(s.screenshot.value), Markup(DocShotClose)] else [])
    + [Markup(DocStepClose)]
  }

  /** `blocks.join("\n")` for blocks of parts. */
  function JoinBlocks(blocks: seq<seq<Part>>): seq<Part> {
    if |blocks| == 0 then []
    else if |blocks| == 1 then blocks[0]
    else blocks[0] + [Markup("\n")] + JoinBlocks(blocks[1..])
  }

  /** `steps.map((s, i) => block)`: block `k` is step `k` numbered `k + 1`. */
  function DocBlocks(steps: seq<Step>, clock: int, fmtTime: int -> string): seq<seq<Part>> {
    seq(|steps|, k requires 0 <= k < |steps| => DocStep(steps[k], k + 1, clock, fmtTime))
  }

  function DocBody(steps: seq<Step>, clock: int, fmtTime: int -> string): seq<Part> {
    JoinBlocks(DocBlocks(steps, clock, fmtTime))
  }

  const DocHead: string :=
    "<!DOCTYPE html><html><head><meta charset=\"utf-8\" /><title>WorkMap Workflow Recording</title>"
    + "<style></style></head><body><header><h1>WorkMap Workflow Recording</h1></header>"

  const DocTail: string := "</body></html>"

  /** `stepsToDocHtml(steps)`, as parts. */
  function DocParts(steps: seq<Step>, clock: int, fmtTime: int -> string): seq<Part> {
    [Markup(DocHead)] + DocBody(steps, clock, fmtTime) + [Markup(DocTail)]
  }

  /** `stepsToDocHtml(steps)`. */
  function DocHtml(steps: seq<Step>, clock: int, fmtTime: int -> string): string {
    Render(DocParts(steps, clock, fmtTime))
  }

  /** In the plain document page, URL and time rows are always present, even
      when empty; selector and value rows exactly when the step has them. */
  lemma DocRowsPresent(s: Step, clock: int, fmtTime: int -> string, k: Meta)
    ensures HasMeta(DocItems(s, clock, fmtTime), k) <==>
      match k
      case PageTitle => true
      case Url => true
      case Time => true
      case Selector => s.selector != ""
      case InputValue => Truthy(s.value)
  {
    var a := Item(PageTitle, s.title);
    var b := Item(Url, s.url);
    var c: seq<Item> := if s.selector != "" then [Item(Selector, s.selector)] else [];
    var d: seq<Item> := if Truthy(s.value) then [Item(InputValue, s.value.value)] else [];
    var e := Item(Time, fmtTime(ShownTime(s, clock)));
    assert [a, b] == [a] + [b];
    HasMetaAppend([a] + [b] + c + d, [e], k);
    HasMetaAppend([a] + [b] + c, d, k);
    HasMetaAppend([a] + [b], c, k);
    HasMetaAppend([a], [b], k);
    HasMetaOne(a, k);
    HasMetaOne(b, k);
    HasMetaOne(e, k);
    if c != [] { HasMetaOne(c[0], k); }
    if d != [] { HasMetaOne(d[0], k); }
  }

  // ---------------------------------------------------------------------
  // The print layout

  function PdfName(k: Meta): string {
    match k
    case PageTitle => "Page Title"
    case Url => "URL"
    case Selector => "Element Selector"
    case InputValue => "Input Value"
    case Time => "Timestamp"
  }

  /** A row spans both grid columns unless it is the title or the time. */
  predicate IsWide(k: Meta) {
    k == Url || k == Selector || k == InputValue
  }

  /** The markup before a row's text: the grid cell, the label, and the code
      style's opening tag for a code row. */
  function PdfRowOpen(k: Meta): string {
    (if IsWide(k) then "<div class=\"meta-item\" style=\"grid-column: span 2;\">" else "<div class=\"meta-item\">")
    + "<div class=\"meta-label\">" + PdfName(k) + "</div><div class=\"meta-value\">"
    + (if IsCode(k) then "<span class=\"meta-code\">" else "")
  }

  /** The markup after a row's text. */
  function PdfRowClose(k: Meta): string {
    (if IsCode(k) then "</span>" else "") + "</div></div>"
  }

  function PdfRow(x: Item): seq<Part> {
    [Markup(PdfRowOpen(x.key)), Escaped(x.text), Markup(PdfRowClose(x.key))]
  }

  function PdfRows(items: seq<Item>): seq<Part> {
    if items == [] then [] else PdfRow(items[0]) + PdfRows(items[1..])
  }

  /** The rows of a step in the print layout: title (or "Unknown Page") and
      time always; URL, selector and value when the step has them. */
  function PdfItems(s: Step, clock: int, fmtTime: int -> string): seq<Item> {
    [Item(PageTitle, if s.title != "" then s.title else "Unknown Page"), Item(Time, fmtTime(ShownTime(s, clock)))]
    + (if s.url != "" then [Item(Url, s.url)] else [])
    + (if s.selector != "" then [Item(Selector, s.selector)] else [])
    + (if Truthy(s.value) then [Item(InputValue, s.value.value)] else [])
  }

  // The fixed markup of a print-layout block.
  const PdfStepOpen: string := "\n<div class=\"step\"><div class=\"step-header\"><div class=\"step-number\">"
  const PdfTitleOpen: string := "</div><h2 class=\"step-title\">"
  const PdfGridOpen: string := "</h2></div><div class=\"step-content\"><div class=\"meta-grid\">"
  const PdfGridClose: string := "</div>"
  const PdfShotOpen: string := "<div class=\"screenshot\"><img src=\""
  const PdfShotAlt: string := "\" alt=\"Screenshot of step "
  const PdfShotClose: string := "\" /></div>"
  const PdfStepClose: string := "</div></div>"

  /** The head of a print-layout block: number, heading and the meta grid. */
  function PdfStepTop(s: Step, n: nat, clock: int, fmtTime: int -> string): seq<Part> {
    [Markup(PdfStepOpen), Number(n), Markup(PdfTitleOpen)] + Heading(s)
    + [Markup(PdfGridOpen)]
    + PdfRows(PdfItems(s, clock, fmtTime))
    + [Markup(PdfGridClose)]
  }

  /** The screenshot of block `n`, when the step has one. */
  function PdfShot(s: Step, n: nat): seq<Part> {
    if Truthy(s.screenshot) then
      [Markup(PdfShotOpen), ImageSrc(s.screenshot.value), Markup(PdfShotAlt), Number(n), Markup(PdfShotClose)]
    else []
  }

  /** The block of step number `n` (counted from 1). */
  function PdfStep(s: Step, n: nat, clock: int, fmtTime: int -> string): seq<Part> {
    PdfStepTop(s, n, clock, fmtTime) + PdfShot(s, n) + [Markup(PdfStepClose)]
  }

  function PdfBlocks(steps: seq<Step>, clock: int, fmtTime: int -> string): seq<seq<Part>> {
    seq(|steps|, k requires 0 <= k < |steps| => PdfStep(steps[k], k + 1, clock, fmtTime))
  }

  function PdfBody(steps: seq<Step>, clock: int, fmtTime: int -> string): seq<Part> {
    JoinBlocks(PdfBlocks(steps, clock, fmtTime))
  }

  /** `Math.round(ms / 60000)` for a whole number of milliseconds: the nearest
      whole minute, halves rounded up. */
  function RoundMinutes(ms: int): int {
    (ms + 30000) / 60000
  }

  /** The summary's duration: from the first step's timestamp to the last's,
      or 0 for an empty recording. */
  function DurationMinutes(steps: seq<Step>): int {
    if steps == [] then 0 else RoundMinutes(steps[|steps| - 1].timestamp - steps[0].timestamp)
  }

  // The fixed markup of the summary.
  const SummaryOpen: string := "<div class=\"summary\"><div class=\"summary-item\"><div class=\"summary-label\">Generated</div><div class=\"summary-value\">"
  const SummaryStepsOpen: string := "</div></div><div class=\"summary-item\"><div class=\"summary-label\">Total Steps</div><div class=\"summary-value\">"
  const SummaryDurationOpen: string := "</div></div><div class=\"summary-item\"><div class=\"summary-label\">Duration</div><div class=\"summary-value\">"
  const SummaryClose: string := "m</div></div></div>"

  /** The summary: generation time, number of steps, duration in minutes. */
  function PdfSummary(steps: seq<Step>, clock: int, fmtTime: int -> string): seq<Part> {
    [Markup(SummaryOpen), Escaped(fmtTime(clock)), Markup(SummaryStepsOpen), Number(|steps|),
     Markup(SummaryDurationOpen), Number(DurationMinutes(steps)), Markup(SummaryClose)]
  }

  /** The summary shows two figures: the number of steps, then the duration in minutes. */
  lemma SummaryFigures(steps: seq<Step>, clock: int, fmtTime: int -> string)
    ensures Numbers(PdfSummary(steps, clock, fmtTime)) == [|steps|, DurationMinutes(steps)]
  {
    NumbersSeven(Markup(SummaryOpen), Escaped(fmtTime(clock)), Markup(SummaryStepsOpen), Number(|steps|),
      Markup(SummaryDurationOpen), Number(DurationMinutes(steps)), Markup(SummaryClose));
  }

  const PdfHead: string :=
    "<!DOCTYPE html><html><head><meta charset=\"utf-8\" /><title>WorkMap Workflow Recording</title>"
    + "<style></style></head><body><div class=\"header\"><h1>WorkMap Workflow Recording</h1>"
    + "<div class=\"subtitle\">Automated Step-by-Step Documentation</div></div>"

  const PdfTail: string :=
    "<div class=\"footer\">Generated by WorkMap • Visual Workflow Recording</div></body></html>"

  /** `stepsToPdfHtml(steps)`, as parts. */
  function PdfParts(steps: seq<Step>, clock: int, fmtTime: int -> string): seq<Part> {
    [Markup(PdfHead)] + PdfSummary(steps, clock, fmtTime) + PdfBody(steps, clock, fmtTime) + [Markup(PdfTail)]
  }

  /** `stepsToPdfHtml(steps)`. */
  function PdfHtml(steps: seq<Step>, clock: int, fmtTime: int -> string): string {
    Render(PdfParts(steps, clock, fmtTime))
  }

  /** In the print layout title and time rows are always present; URL,
      selector and value rows exactly when the step has them. */
  lemma PdfRowsPresent(s: Step, clock: int, fmtTime: int -> string, k: Meta)
    ensures HasMeta(PdfItems(s, clock, fmtTime), k) <==>
      match k
      case PageTitle => true
      case Time => true
      case Url => s.url != ""
      case Selector => s.selector != ""
      case InputValue => Truthy(s.value)
  {
    var a := Item(PageTitle, if s.title != "" then s.title else "Unknown Page");
    var b := Item(Time, fmtTime(ShownTime(s, clock)));
    var c: seq<Item> := if s.url != "" then [Item(Url, s.url)] else [];
    var d: seq<Item> := if s.selector != "" then [Item(Selector, s.selector)] else [];
    var e: seq<Item> := if Truthy(s.value) then [Item(InputValue, s.value.value)] else [];
    assert [a, b] == [a] + [b];
    HasMetaAppend([a] + [b] + c + d, e, k);
    HasMetaAppend([a] + [b] + c, d, k);
    HasMetaAppend([a] + [b], c, k);
    HasMetaAppend([a], [b], k);
    HasMetaOne(a, k);
    HasMetaOne(b, k);
    if c != [] { HasMetaOne(c[0], k); }
    if d != [] { HasMetaOne(d[0], k); }
    if e != [] { HasMetaOne(e[0], k); }
  }

  /** A step without a title is shown as "Unknown Page"; one with a title shows it. */
  lemma PdfTitleDefault(s: Step, clock: int, fmtTime: int -> string)
    ensures PdfItems(s, clock, fmtTime)[0].key == PageTitle
    ensures s.title == "" ==> PdfItems(s, clock, fmtTime)[0].text == "Unknown Page"
    ensures s.title != "" ==> PdfItems(s, clock, fmtTime)[0].text == s.title
  {
  }

  /** The duration is the nearest whole number of minutes, halves rounded up. */
  lemma RoundMinutesNearest(ms: int)
    ensures var m := RoundMinutes(ms);
      60000 * m - 30000 <= ms < 60000 * m + 30000
  {
  }

  /** An empty recording and a single step both last zero minutes; three
      minutes apart is three minutes; ninety seconds rounds up to two. */
  lemma DurationExamples(a: Step, b: Step)
    requires b.timestamp - a.timestamp == 180000
    ensures DurationMinutes([]) == 0
    ensures DurationMinutes([a]) == 0
    ensures DurationMinutes([a, b]) == 3
    ensures RoundMinutes(90000) == 2 && RoundMinutes(89999) == 1 && RoundMinutes(-30001) == -1
  {
  }

  // ---------------------------------------------------------------------
  // What the recorded text can and cannot do to the markup

  /** How many times `c` occurs in `s`. */
  function Occurrences(s: string, c: char): nat {
    if s == [] then 0 else (if s[0] == c then 1 else 0) + Occurrences(s[1..], c)
  }

  lemma {:induction false} OccurrencesAppend(a: string, b: string, c: char)
    ensures Occurrences(a + b, c) == Occurrences(a, c) + Occurrences(b, c)
  {
    if a == [] {
      assert a + b == b;
    } else {
      assert (a + b)[1..] == a[1..] + b;
      OccurrencesAppend(a[1..], b, c);
    }
  }

  lemma {:induction false} OccurrencesAbsent(s: string, c: char)
    requires c !in s
    ensures Occurrences(s, c) == 0
  {
    if s != [] {
      assert c !in s[1..] by { assert forall i :: 0 <= i < |s[1..]| ==> s[1..][i] == s[i + 1]; }
      OccurrencesAbsent(s[1..], c);
    }
  }

  /** The opening brackets a part contributes unless it is escaped text or a number. */
  function TagOpeners(p: Part): nat {
    match p
    case Markup(t) => Occurrences(t, '<')
    case ImageSrc(u) => Occurrences(u, '<')
    case Escaped(_) => 0
    case Number(_) => 0
  }

  function TagOpenersIn(parts: seq<Part>): nat {
    if parts == [] then 0 else TagOpeners(parts[0]) + TagOpenersIn(parts[1..])
  }

  lemma {:induction false} IntToStringNoBracket(n: int)
    ensures '<' !in IntToString(n)
  {
    var d := NatToString(if n < 0 then -n else n);
    assert forall i :: 0 <= i < |d| ==> IsDigit(d[i]);
    if n < 0 {
      assert IntToString(n) == "-" + d;
    }
  }

  /** Every `<` of the rendered document comes from the fixed markup or a
      screenshot URL: no recorded text and no number can open a tag. */
  lemma {:induction false} OnlyMarkupOpensTags(parts: seq<Part>)
    ensures Occurrences(Render(parts), '<') == TagOpenersIn(parts)
  {
    if parts != [] {
      OnlyMarkupOpensTags(parts[1..]);
      OccurrencesAppend(RenderPart(parts[0]), Render(parts[1..]), '<');
      match parts[0]
      case Escaped(r) =>
        EscHtmlHasNoTags(r);
        OccurrencesAbsent(EscHtml(r), '<');
      case Number(n) =>
        IntToStringNoBracket(n);
        OccurrencesAbsent(IntToString(n), '<');
      case Markup(_) =>
      case ImageSrc(_) =>
    }
  }

  // ---------------------------------------------------------------------
  // Recorded text never becomes markup

  /** Every fixed-markup part of `parts` is one of the strings in `fixed`. */
  predicate MarkupWithin(parts: seq<Part>, fixed: set<string>) {
    forall p :: p in parts && p.Markup? ==> p.text in fixed
  }

  lemma MarkupWithinAppend(a: seq<Part>, b: seq<Part>, fixed: set<string>)
    requires MarkupWithin(a, fixed) && MarkupWithin(b, fixed)
    ensures MarkupWithin(a + b, fixed)
  {
  }

  /** All the markup the plain document can hold. It is fixed: no string in
      it depends on a step. */
  const DocMarkup: set<string> :=
    {DocHead, DocTail, "\n", DocStepOpen, DocTitleSep, LabelSep, DocTitleClose,
     DocShotOpen, DocShotClose, DocStepClose,
     DocRowOpen(PageTitle), DocRowOpen(Url), DocRowOpen(Selector), DocRowOpen(InputValue), DocRowOpen(Time),
     DocRowClose(PageTitle), DocRowClose(Selector)}

  /** All the markup the print layout can hold, equally fixed. */
  const PdfMarkup: set<string> :=
    {PdfHead, PdfTail, "\n", SummaryOpen, SummaryStepsOpen, SummaryDurationOpen, SummaryClose,
     PdfStepOpen, PdfTitleOpen, LabelSep, PdfGridOpen, PdfGridClose,
     PdfShotOpen, PdfShotAlt, PdfShotClose, PdfStepClose,
     PdfRowOpen(PageTitle), PdfRowOpen(Url), PdfRowOpen(Selector), PdfRowOpen(InputValue), PdfRowOpen(Time),
     PdfRowClose(PageTitle), PdfRowClose(Selector)}

  lemma HeadingWithin(s: Step, fixed: set<string>)
    requires LabelSep in fixed
    ensures MarkupWithin(Heading(s), fixed)
  {
  }

  lemma DocRowWithin(x: Item)
    ensures MarkupWithin(DocRow(x), DocMarkup)
  {
    match x.key
    case PageTitle =>
    case Url => assert DocRowClose(Url) == DocRowClose(PageTitle);
    case Selector =>
    case InputValue => assert DocRowClose(InputValue) == DocRowClose(Selector);
    case Time => assert DocRowClose(Time) == DocRowClose(PageTitle);
  }

  lemma {:induction false} DocRowsWithin(items: seq<Item>)
    ensures MarkupWithin(DocRows(items), DocMarkup)
  {
    if items != [] {
      DocRowWithin(items[0]);
      DocRowsWithin(items[1..]);
      MarkupWithinAppend(DocRow(items[0]), DocRows(items[1..]), DocMarkup);
    }
  }

  lemma DocStepWithin(s: Step, n: nat, clock: int, fmtTime: int -> string)
    ensures MarkupWithin(DocStep(s, n, clock, fmtTime), DocMarkup)
  {
    var a := [Markup(DocStepOpen), Number(n), Markup(DocTitleSep)];
    var h := Heading(s);
    var rows := DocRows(DocItems(s, clock, fmtTime));
    var shot := if Truthy(s.screenshot) then [Markup(DocShotOpen), ImageSrc(s.screenshot.value), Markup(DocShotClose)] else [];
    HeadingWithin(s, DocMarkup);
    DocRowsWithin(DocItems(s, clock, fmtTime));
    MarkupWithinAppend(a, h, DocMarkup);
    MarkupWithinAppend(a + h, [Markup(DocTitleClose)], DocMarkup);
    MarkupWithinAppend(a + h + [Markup(DocTitleClose)], rows, DocMarkup);
    MarkupWithinAppend(a + h + [Markup(DocTitleClose)] + rows, shot, DocMarkup);
    MarkupWithinAppend(a + h + [Markup(DocTitleClose)] + rows + shot, [Markup(DocStepClose)], DocMarkup);
  }

  lemma DocBlockWithin(steps: seq<Step>, k: nat, clock: int, fmtTime: int -> string)
    requires k < |steps|
    ensures MarkupWithin(DocBlocks(steps, clock, fmtTime)[k], DocMarkup)
  {
    DocStepWithin(steps[k], k + 1, clock, fmtTime);
    assert DocBlocks(steps, clock, fmtTime)[k] == DocStep(steps[k], k + 1, clock, fmtTime);
  }

  /** The plain document's markup is all drawn from `DocMarkup`, whatever the
      steps hold: a recorded title, label, selector or value only ever reaches
      the page through `escHtml`. */
  lemma DocMarkupFixed(steps: seq<Step>, clock: int, fmtTime: int -> string)
    ensures MarkupWithin(DocParts(steps, clock, fmtTime), DocMarkup)
  {
    DocBodyWithin(steps, clock, fmtTime);
    MarkupWithinAppend([Markup(DocHead)], DocBody(steps, clock, fmtTime), DocMarkup);
    MarkupWithinAppend([Markup(DocHead)] + DocBody(steps, clock, fmtTime), [Markup(DocTail)], DocMarkup);
  }

  lemma DocBodyWithin(steps: seq<Step>, clock: int, fmtTime: int -> string)
    ensures MarkupWithin(DocBody(steps, clock, fmtTime), DocMarkup)
  {
    var blocks := DocBlocks(steps, clock, fmtTime);
    forall p | p in JoinBlocks(blocks) && p.Markup?
      ensures p.text in DocMarkup
    {
      JoinBlocksMember(blocks, p);
      if p != Markup("\n") {
        var k :| 0 <= k < |blocks| && p in blocks[k];
        DocBlockWithin(steps, k, clock, fmtTime);
      }
    }
  }

  lemma PdfRowWithin(x: Item)
    ensures MarkupWithin(PdfRow(x), PdfMarkup)
  {
    match x.key
    case PageTitle =>
    case Url => assert PdfRowClose(Url) == PdfRowClose(PageTitle);
    case Selector =>
    case InputValue => assert PdfRowClose(InputValue) == PdfRowClose(Selector);
    case Time => assert PdfRowClose(Time) == PdfRowClose(PageTitle);
  }

  lemma {:induction false} PdfRowsWithin(items: seq<Item>)
    ensures MarkupWithin(PdfRows(items), PdfMarkup)
  {
    if items != [] {
      PdfRowWithin(items[0]);
      PdfRowsWithin(items[1..]);
      MarkupWithinAppend(PdfRow(items[0]), PdfRows(items[1..]), PdfMarkup);
    }
  }

  lemma PdfStepWithin(s: Step, n: nat, clock: int, fmtTime: int -> string)
    ensures MarkupWithin(PdfStep(s, n, clock, fmtTime), PdfMarkup)
  {
    var a := [Markup(PdfStepOpen), Number(n), Markup(PdfTitleOpen)];
    var h := Heading(s);
    var rows := PdfRows(PdfItems(s, clock, fmtTime));
    HeadingWithin(s, PdfMarkup);
    PdfRowsWithin(PdfItems(s, clock, fmtTime));
    MarkupWithinAppend(a, h, PdfMarkup);
    MarkupWithinAppend(a + h, [Markup(PdfGridOpen)], PdfMarkup);
    MarkupWithinAppend(a + h + [Markup(PdfGridOpen)], rows, PdfMarkup);
    MarkupWithinAppend(a + h + [Markup(PdfGridOpen)] + rows, [Markup(PdfGridClose)], PdfMarkup);
    var top := PdfStepTop(s, n, clock, fmtTime);
    MarkupWithinAppend(top, PdfShot(s, n), PdfMarkup);
    MarkupWithinAppend(top + PdfShot(s, n), [Markup(PdfStepClose)], PdfMarkup);
  }

  lemma PdfBlockWithin(steps: seq<Step>, k: nat, clock: int, fmtTime: int -> string)
    requires k < |steps|
    ensures MarkupWithin(PdfBlocks(steps, clock, fmtTime)[k], PdfMarkup)
  {
    PdfStepWithin(steps[k], k + 1, clock, fmtTime);
    assert PdfBlocks(steps, clock, fmtTime)[k] == PdfStep(steps[k], k + 1, clock, fmtTime);
  }

  /** The print layout's markup is all drawn from `PdfMarkup`, whatever the
      steps hold. */
  lemma PdfMarkupFixed(steps: seq<Step>, clock: int, fmtTime: int -> string)
    ensures MarkupWithin(PdfParts(steps, clock, fmtTime), PdfMarkup)
  {
    var head := [Markup(PdfHead)] + PdfSummary(steps, clock, fmtTime);
    PdfSummaryWithin(steps, clock, fmtTime);
    PdfBodyWithin(steps, clock, fmtTime);
    MarkupWithinAppend([Markup(PdfHead)], PdfSummary(steps, clock, fmtTime), PdfMarkup);
    MarkupWithinAppend(head, PdfBody(steps, clock, fmtTime), PdfMarkup);
    MarkupWithinAppend(head + PdfBody(steps, clock, fmtTime), [Markup(PdfTail)], PdfMarkup);
  }

  lemma PdfSummaryWithin(steps: seq<Step>, clock: int, fmtTime: int -> string)
    ensures MarkupWithin(PdfSummary(steps, clock, fmtTime), PdfMarkup)
  {
  }

  lemma PdfBodyWithin(steps: seq<Step>, clock: int, fmtTime: int -> string)
    ensures MarkupWithin(PdfBody(steps, clock, fmtTime), PdfMarkup)
  {
    var blocks := PdfBlocks(steps, clock, fmtTime);
    forall p | p in JoinBlocks(blocks) && p.Markup?
      ensures p.text in PdfMarkup
    {
      JoinBlocksMember(blocks, p);
      if p != Markup("\n") {
        var k :| 0 <= k < |blocks| && p in blocks[k];
        PdfBlockWithin(steps, k, clock, fmtTime);
      }
    }
  }

  /** A part of the joined blocks is a separator or a part of some block. */
  lemma {:induction false} JoinBlocksMember(blocks: seq<seq<Part>>, p: Part)
    requires p in JoinBlocks(blocks)
    ensures p == Markup("\n") || exists k :: 0 <= k < |blocks| && p in blocks[k]
  {
    if |blocks| > 1 && p !in blocks[0] && p != Markup("\n") {
      JoinBlocksMember(blocks[1..], p);
      var k :| 0 <= k < |blocks[1..]| && p in blocks[1..][k];
      assert blocks[k + 1] == blocks[1..][k];
    }
  }

  /** In the plain document the only unescaped data are the steps' screenshots. */
  lemma DocImagesAreScreenshots(steps: seq<Step>, clock: int, fmtTime: int -> string)
    ensures forall p :: p in DocBody(steps, clock, fmtTime) && p.ImageSrc? ==>
      exists k :: 0 <= k < |steps| && steps[k].screenshot == Some(p.url)
  {
    var blocks := DocBlocks(steps, clock, fmtTime);
    forall p | p in JoinBlocks(blocks) && p.ImageSrc?
      ensures exists k :: 0 <= k < |steps| && steps[k].screenshot == Some(p.url)
    {
      JoinBlocksMember(blocks, p);
      var k :| 0 <= k < |blocks| && p in blocks[k];
      DocStepImage(steps[k], k + 1, clock, fmtTime, p);
    }
  }

  lemma DocStepImage(s: Step, n: nat, clock: int, fmtTime: int -> string, p: Part)
    requires p in DocStep(s, n, clock, fmtTime) && p.ImageSrc?
    ensures s.screenshot == Some(p.url)
  {
    DocRowsNoImage(DocItems(s, clock, fmtTime));
  }

  lemma {:induction false} DocRowsNoImage(items: seq<Item>)
    ensures forall p :: p in DocRows(items) ==> !p.ImageSrc?
  {
    if items != [] {
      DocRowsNoImage(items[1..]);
    }
  }

  /** In the print layout, likewise, the only unescaped data are the steps' screenshots. */
  lemma PdfImagesAreScreenshots(steps: seq<Step>, clock: int, fmtTime: int -> string)
    ensures forall p :: p in PdfBody(steps, clock, fmtTime) && p.ImageSrc? ==>
      exists k :: 0 <= k < |steps| && steps[k].screenshot == Some(p.url)
  {
    var blocks := PdfBlocks(steps, clock, fmtTime);
    forall p | p in JoinBlocks(blocks) && p.ImageSrc?
      ensures exists k :: 0 <= k < |steps| && steps[k].screenshot == Some(p.url)
    {
      JoinBlocksMember(blocks, p);
      var k :| 0 <= k < |blocks| && p in blocks[k];
      PdfBlockImage(steps, k, clock, fmtTime, p);
    }
  }

  /** An image in block `k` of the print layout is step `k`'s screenshot. */
  lemma PdfBlockImage(steps: seq<Step>, k: nat, clock: int, fmtTime: int -> string, p: Part)
    requires k < |steps| && p in PdfBlocks(steps, clock, fmtTime)[k] && p.ImageSrc?
    ensures steps[k].screenshot == Some(p.url)
  {
    assert PdfBlocks(steps, clock, fmtTime)[k] == PdfStep(steps[k], k + 1, clock, fmtTime);
    PdfStepImage(steps[k], k + 1, clock, fmtTime, p);
  }

  lemma PdfStepImage(s: Step, n: nat, clock: int, fmtTime: int -> string, p: Part)
    requires p in PdfStep(s, n, clock, fmtTime) && p.ImageSrc?
    ensures s.screenshot == Some(p.url)
  {
    PdfRowsNoImage(PdfItems(s, clock, fmtTime));
  }

  lemma {:induction false} PdfRowsNoImage(items: seq<Item>)
    ensures forall p :: p in PdfRows(items) ==> !p.ImageSrc?
  {
    if items != [] {
      PdfRowsNoImage(items[1..]);
    }
  }

  // ---------------------------------------------------------------------
  // One block per step, numbered in order

  function NumberOf(p: Part): seq<int> {
    if p.Number? then [p.n] else []
  }

  /** The numbers a document shows, in order. */
  function Numbers(parts: seq<Part>): seq<int> {
    if parts == [] then [] else NumberOf(parts[0]) + Numbers(parts[1..])
  }

  lemma NumbersSeven(a: Part, b: Part, c: Part, d: Part, e: Part, f: Part, g: Part)
    ensures Numbers([a, b, c, d, e, f, g])
         == NumberOf(a) + (NumberOf(b) + (NumberOf(c) + (NumberOf(d) + (NumberOf(e) + (NumberOf(f) + NumberOf(g))))))
  {
    NumbersOne(g);
    NumbersCons(f, [g]);
    NumbersCons(e, [f, g]);
    NumbersCons(d, [e, f, g]);
    NumbersCons(c, [d, e, f, g]);
    NumbersCons(b, [c, d, e, f, g]);
    NumbersCons(a, [b, c, d, e, f, g]);
  }

  lemma NumbersCons(p: Part, rest: seq<Part>)
    ensures Numbers([p] + rest) == NumberOf(p) + Numbers(rest)
  {
    assert ([p] + rest)[1..] == rest;
  }

  lemma {:induction false} NumbersAppend(a: seq<Part>, b: seq<Part>)
    ensures Numbers(a + b) == Numbers(a) + Numbers(b)
  {
    if a == [] {
      assert a + b == b;
    } else {
      assert (a + b)[1..] == a[1..] + b;
      NumbersAppend(a[1..], b);
    }
  }

  lemma NumbersOne(a: Part)
    ensures Numbers([a]) == NumberOf(a)
  {
    assert [a][1..] == [];
  }

  lemma NumbersTwo(a: Part, b: Part)
    ensures Numbers([a, b]) == NumberOf(a) + NumberOf(b)
  {
    assert [a, b][1..] == [b];
    NumbersOne(b);
  }

  lemma NumbersThree(a: Part, b: Part, c: Part)
    ensures Numbers([a, b, c]) == NumberOf(a) + NumberOf(b) + NumberOf(c)
  {
    assert [a, b, c][1..] == [b, c];
    NumbersTwo(b, c);
  }

  lemma NumbersFour(a: Part, b: Part, c: Part, d: Part)
    ensures Numbers([a, b, c, d]) == NumberOf(a) + NumberOf(b) + NumberOf(c) + NumberOf(d)
  {
    assert [a, b, c, d][1..] == [b, c, d];
    NumbersThree(b, c, d);
  }

  lemma NumbersFive(a: Part, b: Part, c: Part, d: Part, e: Part)
    ensures Numbers([a, b, c, d, e]) == NumberOf(a) + NumberOf(b) + NumberOf(c) + NumberOf(d) + NumberOf(e)
  {
    assert [a, b, c, d, e][1..] == [b, c, d, e];
    NumbersFour(b, c, d, e);
  }

  lemma HeadingNoNumber(s: Step)
    ensures Numbers(Heading(s)) == []
  {
    NumbersOne(Escaped(ActionName(s.action)));
    if Truthy(s.labelText) {
      NumbersAppend([Escaped(ActionName(s.action))], [Markup(" — "), Escaped(s.labelText.value)]);
      NumbersTwo(Markup(" — "), Escaped(s.labelText.value));
    } else {
      assert Heading(s) == [Escaped(ActionName(s.action))];
    }
  }

  /** A row holds text, never a number. */
  lemma RowNoNumber(row: seq<Part>)
    requires |row| == 3 && row[0].Markup? && row[1].Escaped? && row[2].Markup?
    ensures Numbers(row) == []
  {
    assert row == [row[0], row[1], row[2]];
    NumbersThree(row[0], row[1], row[2]);
  }

  lemma {:induction false} DocRowsNoNumber(items: seq<Item>)
    ensures Numbers(DocRows(items)) == []
  {
    if items != [] {
      DocRowsNoNumber(items[1..]);
      NumbersAppend(DocRow(items[0]), DocRows(items[1..]));
      RowNoNumber(DocRow(items[0]));
    }
  }

  lemma {:induction false} PdfRowsNoNumber(items: seq<Item>)
    ensures Numbers(PdfRows(items)) == []
  {
    if items != [] {
      PdfRowsNoNumber(items[1..]);
      NumbersAppend(PdfRow(items[0]), PdfRows(items[1..]));
      RowNoNumber(PdfRow(items[0]));
    }
  }

  /** A block of the plain document shows one number: its step number. */
  lemma DocStepNumbers(s: Step, n: nat, clock: int, fmtTime: int -> string)
    ensures Numbers(DocStep(s, n, clock, fmtTime)) == [n]
  {
    var a := [Markup("\n<div class=\"step\"><h2>Step "), Number(n), Markup(": ")];
    var h := Heading(s);
    var b := [Markup("</h2>")];
    var rows := DocRows(DocItems(s, clock, fmtTime));
    var shot := if Truthy(s.screenshot) then [Markup("<div><img src=\""), ImageSrc(s.screenshot.value), Markup("\" /></div>")] else [];
    var c := [Markup("</div>")];
    NumbersAppend(a + h + b + rows + shot, c);
    NumbersAppend(a + h + b + rows, shot);
    NumbersAppend(a + h + b, rows);
    NumbersAppend(a + h, b);
    NumbersAppend(a, h);
    NumbersThree(Markup("\n<div class=\"step\"><h2>Step "), Number(n), Markup(": "));
    HeadingNoNumber(s);
    NumbersOne(Markup("</h2>"));
    DocRowsNoNumber(DocItems(s, clock, fmtTime));
    if Truthy(s.screenshot) {
      NumbersThree(Markup("<div><img src=\""), ImageSrc(s.screenshot.value), Markup("\" /></div>"));
    }
    NumbersOne(Markup("</div>"));
  }

  /** The numbers of joined blocks: the first block's, then the rest's. */
  lemma JoinNumbersCons(blocks: seq<seq<Part>>)
    requires |blocks| > 1
    ensures Numbers(JoinBlocks(blocks)) == Numbers(blocks[0]) + Numbers(JoinBlocks(blocks[1..]))
  {
    var first, sep, rest := blocks[0], [Markup("\n")], JoinBlocks(blocks[1..]);
    assert JoinBlocks(blocks) == first + sep + rest;
    NumbersAppend(first + sep, rest);
    NumbersAppend(first, sep);
    NumbersOne(Markup("\n"));
  }

  /** Block `k` of `blocks` shows just the number `n + k`. */
  predicate NumberedFrom(blocks: seq<seq<Part>>, n: int) {
    forall k :: 0 <= k < |blocks| ==> Numbers(blocks[k]) == [n + k]
  }

  lemma NumberedFromRest(blocks: seq<seq<Part>>, n: int)
    requires blocks != [] && NumberedFrom(blocks, n)
    ensures Numbers(blocks[0]) == [n] && NumberedFrom(blocks[1..], n + 1)
  {
    var rest := blocks[1..];
    forall k | 0 <= k < |rest| ensures Numbers(rest[k]) == [(n + 1) + k] {
      assert rest[k] == blocks[k + 1];
    }
  }

  /** Numbers that start at `n` and then count on from `n + 1` count on from `n`. */
  lemma CountOn(rest: seq<int>, n: int, m: nat)
    requires |rest| == m && forall k :: 0 <= k < m ==> rest[k] == n + 1 + k
    ensures |[n] + rest| == m + 1 && forall k :: 0 <= k < m + 1 ==> ([n] + rest)[k] == n + k
  {
  }

  /** Joined blocks whose `k`-th block shows just the number `n + k` show
      `n`, `n + 1`, … in order. */
  lemma {:induction false} JoinBlocksCount(blocks: seq<seq<Part>>, n: int)
    requires NumberedFrom(blocks, n)
    ensures |Numbers(JoinBlocks(blocks))| == |blocks|
    ensures forall k :: 0 <= k < |blocks| ==> Numbers(JoinBlocks(blocks))[k] == n + k
  {
    if |blocks| == 1 {
      NumberedFromRest(blocks, n);
    } else if |blocks| > 1 {
      NumberedFromRest(blocks, n);
      JoinBlocksCount(blocks[1..], n + 1);
      JoinNumbersCons(blocks);
      CountOn(Numbers(JoinBlocks(blocks[1..])), n, |blocks| - 1);
    }
  }

  /** The plain document holds one block per step, in recording order, the
      `k`-th numbered `k + 1`. */
  lemma DocNumberedInOrder(steps: seq<Step>, clock: int, fmtTime: int -> string)
    ensures |Numbers(DocBody(steps, clock, fmtTime))| == |steps|
    ensures forall k :: 0 <= k < |steps| ==> Numbers(DocBody(steps, clock, fmtTime))[k] == k + 1
  {
    DocBlocksNumbered(steps, clock, fmtTime);
    JoinBlocksCount(DocBlocks(steps, clock, fmtTime), 1);
  }

  /** Block `k` of the plain document shows just `k + 1`. */
  lemma DocBlocksNumbered(steps: seq<Step>, clock: int, fmtTime: int -> string)
    ensures NumberedFrom(DocBlocks(steps, clock, fmtTime), 1)
  {
    forall k | 0 <= k < |steps| ensures Numbers(DocStep(steps[k], k + 1, clock, fmtTime)) == [1 + k] {
      DocStepNumbers(steps[k], k + 1, clock, fmtTime);
    }
  }

  /** `ns` with each run of equal neighbours shown once. */
  function Runs(ns: seq<int>): seq<int> {
    if |ns| < 2 then ns
    else if ns[0] == ns[1] then Runs(ns[1..])
    else [ns[0]] + Runs(ns[1..])
  }

  /** The head of a print-layout block shows its step number once. */
  lemma PdfStepTopNumbers(s: Step, n: nat, clock: int, fmtTime: int -> string)
    ensures Numbers(PdfStepTop(s, n, clock, fmtTime)) == [n]
  {
    var a := [Markup(PdfStepOpen), Number(n), Markup(PdfTitleOpen)];
    var h := Heading(s);
    var b := [Markup(PdfGridOpen)];
    var rows := PdfRows(PdfItems(s, clock, fmtTime));
    var c := [Markup(PdfGridClose)];
    NumbersAppend(a + h + b + rows, c);
    NumbersAppend(a + h + b, rows);
    NumbersAppend(a + h, b);
    NumbersAppend(a, h);
    NumbersThree(a[0], a[1], a[2]);
    HeadingNoNumber(s);
    NumbersOne(b[0]);
    PdfRowsNoNumber(PdfItems(s, clock, fmtTime));
    NumbersOne(c[0]);
  }

  /** The screenshot repeats the step number in its alt text. */
  lemma PdfShotNumbers(s: Step, n: nat)
    ensures Numbers(PdfShot(s, n)) == if Truthy(s.screenshot) then [n] else []
  {
    var shot := PdfShot(s, n);
    if Truthy(s.screenshot) {
      NumbersFive(shot[0], shot[1], shot[2], shot[3], shot[4]);
    }
  }

  /** A block of the print layout shows its step number, twice when the
      screenshot's alt text repeats it. */
  lemma PdfStepNumbers(s: Step, n: nat, clock: int, fmtTime: int -> string)
    ensures Numbers(PdfStep(s, n, clock, fmtTime)) == if Truthy(s.screenshot) then [n, n] else [n]
  {
    var top := PdfStepTop(s, n, clock, fmtTime);
    var shot := PdfShot(s, n);
    var d := [Markup(PdfStepClose)];
    PdfStepTopNumbers(s, n, clock, fmtTime);
    PdfShotNumbers(s, n);
    NumbersAppend(top + shot, d);
    NumbersAppend(top, shot);
    NumbersOne(d[0]);
  }

  /** A block's one or two copies of `n` followed by numbers that count on
      from `n + 1` count on from `n`. */
  lemma RunsOfBlock(b: seq<int>, rest: seq<int>, n: int, m: nat)
    requires b == [n] || b == [n, n]
    requires rest != [] && rest[0] == n + 1
    requires |Runs(rest)| == m && forall k :: 0 <= k < m ==> Runs(rest)[k] == n + 1 + k
    ensures (b + rest)[0] == n
    ensures |Runs(b + rest)| == m + 1 && forall k :: 0 <= k < m + 1 ==> Runs(b + rest)[k] == n + k
  {
    var one := [n] + rest;
    assert one[1..] == rest;
    if b == [n, n] {
      assert (b + rest)[1..] == one;
    } else {
      assert b + rest == one;
    }
    assert Runs(b + rest) == [n] + Runs(rest);
  }

  lemma RunsOfOneBlock(b: seq<int>, n: int)
    requires b == [n] || b == [n, n]
    ensures b[0] == n && Runs(b) == [n]
  {
    if b == [n, n] {
      assert b[1..] == [n];
    }
  }

  /** Block `k` of `blocks` shows the number `n + k`, once or twice. */
  predicate RunsFrom(blocks: seq<seq<Part>>, n: int) {
    forall k :: 0 <= k < |blocks| ==> Numbers(blocks[k]) == [n + k] || Numbers(blocks[k]) == [n + k, n + k]
  }

  lemma RunsFromRest(blocks: seq<seq<Part>>, n: int)
    requires blocks != [] && RunsFrom(blocks, n)
    ensures (Numbers(blocks[0]) == [n] || Numbers(blocks[0]) == [n, n]) && RunsFrom(blocks[1..], n + 1)
  {
    var rest := blocks[1..];
    forall k | 0 <= k < |rest|
      ensures Numbers(rest[k]) == [(n + 1) + k] || Numbers(rest[k]) == [(n + 1) + k, (n + 1) + k]
    {
      assert rest[k] == blocks[k + 1];
    }
  }

  /** Joined blocks whose `k`-th block shows `n + k` once or twice show,
      read without the repetitions, `n`, `n + 1`, … in order. */
  lemma {:induction false} JoinBlocksRuns(blocks: seq<seq<Part>>, n: int)
    requires RunsFrom(blocks, n)
    ensures blocks != [] ==> Numbers(JoinBlocks(blocks)) != [] && Numbers(JoinBlocks(blocks))[0] == n
    ensures |Runs(Numbers(JoinBlocks(blocks)))| == |blocks|
    ensures forall k :: 0 <= k < |blocks| ==> Runs(Numbers(JoinBlocks(blocks)))[k] == n + k
  {
    if |blocks| == 1 {
      RunsFromRest(blocks, n);
      RunsOfOneBlock(Numbers(blocks[0]), n);
    } else if |blocks| > 1 {
      RunsFromRest(blocks, n);
      JoinBlocksRuns(blocks[1..], n + 1);
      JoinNumbersCons(blocks);
      RunsOfBlock(Numbers(blocks[0]), Numbers(JoinBlocks(blocks[1..])), n, |blocks| - 1);
    }
  }

  /** The print layout holds one block per step, in recording order: read
      without the repetition in the alt text, its numbers are 1, 2, … */
  lemma PdfNumberedInOrder(steps: seq<Step>, clock: int, fmtTime: int -> string)
    ensures steps != [] ==> Numbers(PdfBody(steps, clock, fmtTime)) != [] && Numbers(PdfBody(steps, clock, fmtTime))[0] == 1
    ensures |Runs(Numbers(PdfBody(steps, clock, fmtTime)))| == |steps|
    ensures forall k :: 0 <= k < |steps| ==> Runs(Numbers(PdfBody(steps, clock, fmtTime)))[k] == k + 1
  {
    PdfBlocksNumbered(steps, clock, fmtTime);
    JoinBlocksRuns(PdfBlocks(steps, clock, fmtTime), 1);
  }

  /** Block `k` of the print layout shows `k + 1`, once or twice. */
  lemma PdfBlocksNumbered(steps: seq<Step>, clock: int, fmtTime: int -> string)
    ensures RunsFrom(PdfBlocks(steps, clock, fmtTime), 1)
  {
    var blocks := PdfBlocks(steps, clock, fmtTime);
    forall k | 0 <= k < |blocks|
      ensures Numbers(blocks[k]) == [1 + k] || Numbers(blocks[k]) == [1 + k, 1 + k]
    {
      PdfBlockNumbered(steps, k, clock, fmtTime);
    }
  }

  /** Block `k` of the print layout shows `k + 1` once, or twice with a screenshot. */
  lemma PdfBlockNumbered(steps: seq<Step>, k: nat, clock: int, fmtTime: int -> string)
    requires k < |steps|
    ensures var b := PdfBlocks(steps, clock, fmtTime)[k];
      Numbers(b) == [1 + k] || Numbers(b) == [1 + k, 1 + k]
  {
    var b := PdfStep(steps[k], k + 1, clock, fmtTime);
    PdfStepNumbers(steps[k], k + 1, clock, fmtTime);
    assert Numbers(b) == [1 + k] || Numbers(b) == [1 + k, 1 + k];
    assert PdfBlocks(steps, clock, fmtTime)[k] == b;
  }
}
