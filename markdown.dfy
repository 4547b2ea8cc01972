/**
  `stepsToMarkdown`: the recording as a Markdown document. The document is a
  list of lines joined with newlines: a title, then either a note that
  nothing was recorded or a summary followed by one block per step.
  `clock` is `Date.now()` and `fmtTime` is `toLocaleString`, both supplied
  by the caller.
*/
module Markdown {
  import opened Wrappers
  import opened Text
  import opened Steps
  import opened Escaping

  const Title: string := "# WorkMap Workflow Recording"
  const EmptyNote: string := "\n_No steps recorded yet._"
  const Separator: string := "\n---\n"

  /** The names of the lines under a step's header. */
  datatype Key = Time | Page | Url | Target | Value | Selector | Screenshot

  function KeyName(k: Key): string {
    match k
    case Time => "Time"
    case Page => "Page"
    case Url => "URL"
    case Target => "Target"
    case Value => "Value"
    case Selector => "Selector"
    case Screenshot => "Screenshot"
  }

  /** One `**Key:** text` line of a step block. */
  datatype Field = Field(key: Key, text: string)

  function FieldLine(f: Field): string {
    "**" + KeyName(f.key) + ":** " + f.text
  }

  function FieldLines(fs: seq<Field>): (r: seq<string>)
    ensures |r| == |fs|
    ensures forall j :: 0 <= j < |fs| ==> r[j] == FieldLine(fs[j])
  {
    if fs == [] then [] else [FieldLine(fs[0])] + FieldLines(fs[1..])
  }

  /** `## Step i — action`. */
  function StepHeader(i: nat, s: Step): string {
    "## Step " + NatToString(i) + " — " + EscapeMd(ActionName(s.action))
  }

  /** The lines under a step's header: time, page and URL always; target,
      value, selector and the screenshot note only when the step has them.
      The screenshot itself is never written, only the fact that one exists.
      The value and the selector are escaped and then wrapped in a code span,
      where a Markdown reader shows the escapes as they are. */
  function StepFields(s: Step, clock: int, fmtTime: int -> string): seq<Field> {
    [Field(Time, fmtTime(ShownTime(s, clock))), Field(Page, EscapeMd(s.title)), Field(Url, EscapeMd(s.url))]
    + (if Truthy(s.labelText) then [Field(Target, EscapeMd(s.labelText.value))] else [])
    + (if Truthy(s.value) then [Field(Value, "`" + EscapeMd(s.value.value) + "`")] else [])
    + (if s.selector != "" then [Field(Selector, "`" + EscapeMd(s.selector) + "`")] else [])
    + (if Truthy(s.screenshot) then [Field(Screenshot, "Captured")] else [])
  }

  /** The block of step number `i`. */
  function StepLines(s: Step, i: nat, clock: int, fmtTime: int -> string): seq<string> {
    [StepHeader(i, s)] + FieldLines(StepFields(s, clock, fmtTime)) + [Separator]
  }

  /** The blocks of all steps, numbered from 1 in recording order. */
  function StepBlocks(steps: seq<Step>, clock: int, fmtTime: int -> string): seq<string> {
    if steps == [] then []
    else StepBlocks(steps[..|steps| - 1], clock, fmtTime) + StepLines(steps[|steps| - 1], |steps|, clock, fmtTime)
  }

  /** The summary that opens a non-empty recording. */
  function Summary(count: nat, clock: int, fmtTime: int -> string): seq<string> {
    [Title, "\n**Generated:** " + fmtTime(clock), "**Total Steps:** " + NatToString(count), Separator]
  }

  /** The lines of the document. */
  function MarkdownLines(steps: seq<Step>, clock: int, fmtTime: int -> string): seq<string> {
    if steps == [] then [Title, EmptyNote]
    else Summary(|steps|, clock, fmtTime) + StepBlocks(steps, clock, fmtTime)
  }

  /** `stepsToMarkdown(steps)`. */
  method StepsToMarkdown(steps: seq<Step>, clock: int, fmtTime: int -> string) returns (md: string)
    ensures md == Join(MarkdownLines(steps, clock, fmtTime), "\n")
  {
    var lines := [Title];
    if |steps| == 0 {
      lines := lines + [EmptyNote];
      return Join(lines, "\n");
    }
    lines := lines + ["\n**Generated:** " + fmtTime(clock)];
    lines := lines + ["**Total Steps:** " + NatToString(|steps|)];
    lines := lines + [Separator];
    var i := 1;
    var k := 0;
    while k < |steps|
      invariant 0 <= k <= |steps| && i == k + 1
      invariant lines == Summary(|steps|, clock, fmtTime) + StepBlocks(steps[..k], clock, fmtTime)
    {
      BlocksGrow(steps, k, clock, fmtTime);
      AppendAssoc(Summary(|steps|, clock, fmtTime), StepBlocks(steps[..k], clock, fmtTime), StepLines(steps[k], i, clock, fmtTime));
      lines := lines + StepLines(steps[k], i, clock, fmtTime);
      i := i + 1;
      k := k + 1;
    }
    assert steps[..k] == steps;
    md := Join(lines, "\n");
  }

  /** One more step adds its block at the end. */
  lemma BlocksGrow(steps: seq<Step>, k: nat, clock: int, fmtTime: int -> string)
    requires k < |steps|
    ensures StepBlocks(steps[..k + 1], clock, fmtTime)
         == StepBlocks(steps[..k], clock, fmtTime) + StepLines(steps[k], k + 1, clock, fmtTime)
  {
    assert steps[..k + 1][..k] == steps[..k];
  }

  lemma AppendAssoc(a: seq<string>, b: seq<string>, c: seq<string>)
    ensures a + b + c == a + (b + c)
  {
  }

  /** An empty recording is the title and a note, nothing else. */
  lemma EmptyRecording(clock: int, fmtTime: int -> string)
    ensures Join(MarkdownLines([], clock, fmtTime), "\n") == Title + "\n" + EmptyNote
  {
    var lines := [Title, EmptyNote];
    assert lines[1..] == [EmptyNote];
    assert Join(lines[1..], "\n") == EmptyNote;
  }

  /** The lines that open a step block: those starting with `#`. Field lines
      start with `*` and separators with a newline. */
  function Headers(lines: seq<string>): seq<string> {
    if lines == [] then []
    else (if lines[0] != [] && lines[0][0] == '#' then [lines[0]] else []) + Headers(lines[1..])
  }

  lemma {:induction false} HeadersAppend(a: seq<string>, b: seq<string>)
    ensures Headers(a + b) == Headers(a) + Headers(b)
  {
    if a == [] {
      assert a + b == b;
    } else {
      assert (a + b)[1..] == a[1..] + b;
      HeadersAppend(a[1..], b);
    }
  }

  lemma {:induction false} FieldLinesHaveNoHeader(fs: seq<Field>)
    ensures Headers(FieldLines(fs)) == []
  {
    if fs != [] {
      var r := FieldLines(fs);
      assert r[0][0] == '*';
      assert r[1..] == FieldLines(fs[1..]);
      FieldLinesHaveNoHeader(fs[1..]);
    }
  }

  /** A step block has exactly one header, its own. */
  lemma StepLinesHeader(s: Step, i: nat, clock: int, fmtTime: int -> string)
    ensures Headers(StepLines(s, i, clock, fmtTime)) == [StepHeader(i, s)]
  {
    var fl := FieldLines(StepFields(s, clock, fmtTime));
    HeadersAppend([StepHeader(i, s)] + fl, [Separator]);
    HeadersAppend([StepHeader(i, s)], fl);
    FieldLinesHaveNoHeader(StepFields(s, clock, fmtTime));
    assert StepHeader(i, s)[0] == '#';
    assert [StepHeader(i, s)][1..] == [];
    assert Separator[0] == '\n';
    assert [Separator][1..] == [];
  }

  /** One more step adds its own header after the others. */
  lemma HeadersGrow(steps: seq<Step>, clock: int, fmtTime: int -> string)
    requires steps != []
    ensures Headers(StepBlocks(steps, clock, fmtTime))
         == Headers(StepBlocks(steps[..|steps| - 1], clock, fmtTime)) + [StepHeader(|steps|, steps[|steps| - 1])]
  {
    var n := |steps|;
    HeadersAppend(StepBlocks(steps[..n - 1], clock, fmtTime), StepLines(steps[n - 1], n, clock, fmtTime));
    StepLinesHeader(steps[n - 1], n, clock, fmtTime);
  }

  /** The step blocks carry one header per step, in recording order, the
      `k`-th numbered `k + 1` and naming that step's action. */
  lemma {:induction false} StepsNumberedInOrder(steps: seq<Step>, clock: int, fmtTime: int -> string)
    ensures |Headers(StepBlocks(steps, clock, fmtTime))| == |steps|
    ensures forall k :: 0 <= k < |steps| ==>
      Headers(StepBlocks(steps, clock, fmtTime))[k] == StepHeader(k + 1, steps[k])
  {
    if steps != [] {
      var front := steps[..|steps| - 1];
      StepsNumberedInOrder(front, clock, fmtTime);
      HeadersGrow(steps, clock, fmtTime);
      HeaderListGrows(Headers(StepBlocks(front, clock, fmtTime)), steps);
    }
  }

  /** The headers of all but the last step, followed by the last step's. */
  lemma HeaderListGrows(hf: seq<string>, steps: seq<Step>)
    requires steps != [] && |hf| == |steps| - 1
    requires forall k :: 0 <= k < |hf| ==> hf[k] == StepHeader(k + 1, steps[..|steps| - 1][k])
    ensures var hs := hf + [StepHeader(|steps|, steps[|steps| - 1])];
      |hs| == |steps| && forall k :: 0 <= k < |steps| ==> hs[k] == StepHeader(k + 1, steps[k])
  {
    var hs := hf + [StepHeader(|steps|, steps[|steps| - 1])];
    forall k | 0 <= k < |steps|
      ensures hs[k] == StepHeader(k + 1, steps[k])
    {
      if k < |hf| {
        assert steps[..|steps| - 1][k] == steps[k];
      }
    }
  }

  /** Some line of `fs` is the `k` line. */
  predicate HasKey(fs: seq<Field>, k: Key) {
    fs != [] && (fs[0].key == k || HasKey(fs[1..], k))
  }

  lemma {:induction false} HasKeyAppend(a: seq<Field>, b: seq<Field>, k: Key)
    ensures HasKey(a + b, k) <==> HasKey(a, k) || HasKey(b, k)
  {
    if a == [] {
      assert a + b == b;
    } else {
      assert (a + b)[1..] == a[1..] + b;
      HasKeyAppend(a[1..], b, k);
    }
  }

  lemma HasKeyOne(f: Field, k: Key)
    ensures HasKey([f], k) <==> f.key == k
  {
    assert [f][1..] == [];
  }

  /** Which lines a step block has, in terms of the step. */
  lemma StepKeys(s: Step, clock: int, fmtTime: int -> string, k: Key)
    ensures HasKey(StepFields(s, clock, fmtTime), k) <==>
      match k
      case Time => true
      case Page => true
      case Url => true
      case Target => Truthy(s.labelText)
      case Value => Truthy(s.value)
      case Selector => s.selector != ""
      case Screenshot => Truthy(s.screenshot)
  {
    var f0 := Field(Time, fmtTime(ShownTime(s, clock)));
    var f1 := Field(Page, EscapeMd(s.title));
    var f2 := Field(Url, EscapeMd(s.url));
    var a := [f0, f1, f2];
    var b: seq<Field> := if Truthy(s.labelText) then [Field(Target, EscapeMd(s.labelText.value))] else [];
    var c: seq<Field> := if Truthy(s.value) then [Field(Value, "`" + EscapeMd(s.value.value) + "`")] else [];
    var d: seq<Field> := if s.selector != "" then [Field(Selector, "`" + EscapeMd(s.selector) + "`")] else [];
    var e: seq<Field> := if Truthy(s.screenshot) then [Field(Screenshot, "Captured")] else [];
    HasKeyAppend(a + b + c + d, e, k);
    HasKeyAppend(a + b + c, d, k);
    HasKeyAppend(a + b, c, k);
    HasKeyAppend(a, b, k);
    assert a == [f0] + [f1] + [f2];
    HasKeyAppend([f0] + [f1], [f2], k);
    HasKeyAppend([f0], [f1], k);
    HasKeyOne(f0, k);
    HasKeyOne(f1, k);
    HasKeyOne(f2, k);
    if b != [] { HasKeyOne(b[0], k); }
    if c != [] { HasKeyOne(c[0], k); }
    if d != [] { HasKeyOne(d[0], k); }
    if e != [] { HasKeyOne(e[0], k); }
  }

  /** Time, page and URL are always the first three lines, and the target,
      when shown, is the escaped label. */
  lemma FixedLinesFirst(s: Step, clock: int, fmtTime: int -> string)
    ensures var fs := StepFields(s, clock, fmtTime);
      |fs| >= 3 && fs[0] == Field(Time, fmtTime(ShownTime(s, clock)))
      && fs[1] == Field(Page, EscapeMd(s.title)) && fs[2] == Field(Url, EscapeMd(s.url))
    ensures Truthy(s.labelText) ==> StepFields(s, clock, fmtTime)[3] == Field(Target, EscapeMd(s.labelText.value))
  {
  }

  /** The screenshot's data never reaches the document: two steps that differ
      only in which screenshot they hold, both present or both absent, give the
      same block. */
  lemma ScreenshotNotEmbedded(s: Step, shot: Option<string>, i: nat, clock: int, fmtTime: int -> string)
    requires Truthy(shot) == Truthy(s.screenshot)
    ensures StepLines(s.(screenshot := shot), i, clock, fmtTime) == StepLines(s, i, clock, fmtTime)
  {
  }

  /** The summary's count reads back as the number of steps. */
  lemma TotalReadsBack(steps: seq<Step>, clock: int, fmtTime: int -> string)
    requires steps != []
    ensures var line := MarkdownLines(steps, clock, fmtTime)[2];
      |line| > 17 && line[..17] == "**Total Steps:** " && AllDigits(line[17..])
      && ParseNat(line[17..]) == |steps|
  {
    var line := "**Total Steps:** " + NatToString(|steps|);
    assert line[17..] == NatToString(|steps|);
    ParseNatToString(|steps|);
  }
}
