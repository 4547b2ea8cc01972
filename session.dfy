/**
  The background worker: whether recording is on, the recorded steps, the
  settings, and the toolbar badge that shows the step count. Messages from
  the popup and the content script, the keyboard command and the storage
  events become methods of `RecordingSession`; replies are their results.
*/
module Session {
  import opened Wrappers
  import opened Text
  import opened Steps
  import opened Markdown
  import opened HtmlExport

  /** The badge text `updateBadge` sets. `String(n || "")` is "" for no steps,
      so the `"REC"` case is never taken (see `BadgeNeverRec`); `slice(-4)`
      keeps the last four digits. */
  function BadgeText(isRecording: bool, count: nat): string {
    if !isRecording then ""
    else
      var text := if count != 0 then NatToString(count) else "";
      if text == "0" then "REC" else Suffix(text, 4)
  }

  /** The badge never reads "REC": no count is written as "0". */
  lemma BadgeNeverRec(isRecording: bool, count: nat)
    ensures BadgeText(isRecording, count) != "REC"
  {
    if isRecording && count != 0 {
      BadgeIsSuffix(count);
      var text := NatToString(count);
      var b := Suffix(text, 4);
      assert b[0] == text[|text| - |b|];
      assert IsDigit(b[0]) && !IsDigit("REC"[0]);
    }
  }

  /** The badge of a non-empty log is the last four digits of the count. */
  lemma BadgeIsSuffix(count: nat)
    requires count > 0
    ensures BadgeText(true, count) == Suffix(NatToString(count), 4)
  {
    assert "0"[0] == '0';
  }

  /** The last four digits of a count spell the count modulo 10000. */
  lemma SuffixValue(count: nat)
    ensures var b := Suffix(NatToString(count), 4);
      AllDigits(b) && ParseNat(b) == count % 10000
  {
    var text := NatToString(count);
    var b := Suffix(text, 4);
    assert forall i :: 0 <= i < |b| ==> b[i] == text[|text| - |b| + i];
    if |text| <= 4 {
      ShortSuffixValue(count);
    } else {
      NatSuffixValue(count, 4);
      assert Pow10(4) == 10000;
    }
  }

  lemma ShortSuffixValue(count: nat)
    requires |NatToString(count)| <= 4
    ensures ParseNat(Suffix(NatToString(count), 4)) == count % 10000
  {
    ParseNatToString(count);
    NatBelowPow10(count);
    Pow10Monotone(|NatToString(count)|, 4);
    assert Pow10(4) == 10000;
  }

  /** A count below 10000 has at most four digits. */
  lemma ShortCount(count: nat)
    requires 0 < count < 10000
    ensures |NatToString(count)| <= 4
  {
    var text := NatToString(count);
    if |text| > 4 {
      NatAtLeastPow10(count);
      Pow10Monotone(4, |text| - 1);
    }
  }

  /** While recording, an empty log shows an empty badge, and otherwise the
      badge reads the count modulo 10000, so every count below 10000 is shown in
      full. When not recording the badge is empty. */
  lemma BadgeShowsCount(isRecording: bool, count: nat)
    ensures !isRecording ==> BadgeText(isRecording, count) == ""
    ensures isRecording && count == 0 ==> BadgeText(isRecording, count) == ""
    ensures isRecording && count > 0 ==>
      var b := BadgeText(isRecording, count);
      1 <= |b| <= 4 && AllDigits(b) && ParseNat(b) == count % 10000
    ensures isRecording && 0 < count < 10000 ==> BadgeText(isRecording, count) == NatToString(count)
  {
    if isRecording && count > 0 {
      BadgeIsSuffix(count);
      SuffixValue(count);
      if count < 10000 {
        ShortCount(count);
      }
    }
  }

  lemma {:induction false} Pow10Monotone(j: nat, k: nat)
    requires j <= k
    ensures Pow10(j) <= Pow10(k)
    decreases k
  {
    if j < k {
      Pow10Monotone(j, k - 1);
    }
  }

  /** A positive number written with `d` digits is at least `10^(d-1)`. */
  lemma {:induction false} NatAtLeastPow10(n: nat)
    requires n > 0
    ensures Pow10(|NatToString(n)| - 1) <= n
  {
    if n >= 10 {
      NatAtLeastPow10(n / 10);
      var d := |NatToString(n / 10)|;
      assert |NatToString(n)| == d + 1;
      assert Pow10(d) == 10 * Pow10(d - 1);
    }
  }

  /** The result of `chrome.tabs.captureVisibleTab`. */
  datatype CaptureOutcome = Captured(dataUrl: string) | CaptureFailed

  /** The step the background stores for a payload: a screenshot is attached
      when screenshots are on, the step is a click or a submission, and the
      capture succeeded; otherwise the payload is stored as it came. */
  function Enrich(payload: Step, captureScreenshots: bool, outcome: CaptureOutcome): Step {
    if captureScreenshots && (payload.action == Click || payload.action == Submit) && outcome.Captured? then
      payload.(screenshot := Some(outcome.dataUrl))
    else payload
  }

  /** Only a click or a submission, with screenshots on, ever gains a
      screenshot, and nothing else about the step changes. */
  lemma EnrichOnlyScreenshot(payload: Step, captureScreenshots: bool, outcome: CaptureOutcome)
    ensures Enrich(payload, captureScreenshots, outcome).(screenshot := payload.screenshot) == payload
    ensures Enrich(payload, captureScreenshots, outcome) != payload ==>
      captureScreenshots && (payload.action == Click || payload.action == Submit)
      && Enrich(payload, captureScreenshots, outcome).screenshot == Some(outcome.dataUrl)
    ensures !captureScreenshots || payload.action == Input || payload.action == Select || payload.action == Navigate
      ==> Enrich(payload, captureScreenshots, outcome) == payload
    ensures outcome.CaptureFailed? ==> Enrich(payload, captureScreenshots, outcome) == payload
  {
  }

  class RecordingSession {
    var isRecording: bool
    var steps: seq<Step>
    /** `settings.captureScreenshots` and `settings.maskSensitive`. */
    var captureScreenshots: bool
    var maskSensitive: bool
    /** The text on the toolbar badge. */
    var badge: string

    /** The badge always shows the state it was last updated from; every
        handler that changes the state updates it. */
    predicate Valid()
      reads this
    {
      badge == BadgeText(isRecording, |steps|)
    }

    /** The state when the worker starts: not recording, no steps, default settings. */
    constructor()
      ensures Valid()
      ensures !isRecording && steps == [] && captureScreenshots && maskSensitive
    {
      isRecording := false;
      steps := [];
      captureScreenshots := true;
      maskSensitive := true;
      badge := "";
    }

    /** `updateBadge`. */
    method UpdateBadge()
      modifies this
      ensures Valid()
      ensures isRecording == old(isRecording) && steps == old(steps)
      ensures captureScreenshots == old(captureScreenshots) && maskSensitive == old(maskSensitive)
    {
      badge := BadgeText(isRecording, |steps|);
    }

    /** `onInstalled`: the stored settings, with the defaults for those not
        stored, become the settings (and are written back, which is not
        modelled); then the badge is updated. */
    method OnInstalled(storedCapture: Option<bool>, storedMask: Option<bool>)
      modifies this
      ensures Valid()
      ensures captureScreenshots == storedCapture.GetOr(true) && maskSensitive == storedMask.GetOr(true)
      ensures isRecording == old(isRecording) && steps == old(steps)
    {
      captureScreenshots := storedCapture.GetOr(true);
      maskSensitive := storedMask.GetOr(true);
      UpdateBadge();
    }

    /** `storage.onChanged`: in the sync area every changed key takes its new
        value; a removed key (no new value) reads as off. Each argument is
        the change to that key, if it changed. */
    method OnSettingsChanged(area: string, capture: Option<Option<bool>>, mask: Option<Option<bool>>)
      requires Valid()
      modifies this
      ensures Valid()
      ensures area == "sync" && capture.Some? ==> captureScreenshots == capture.value.GetOr(false)
      ensures area == "sync" && mask.Some? ==> maskSensitive == mask.value.GetOr(false)
      ensures area != "sync" || capture.None? ==> captureScreenshots == old(captureScreenshots)
      ensures area != "sync" || mask.None? ==> maskSensitive == old(maskSensitive)
      ensures isRecording == old(isRecording) && steps == old(steps) && badge == old(badge)
    {
      if area != "sync" {
        return;
      }
      if capture.Some? {
        captureScreenshots := capture.value.GetOr(false);
      }
      if mask.Some? {
        maskSensitive := mask.value.GetOr(false);
      }
    }

    /** `RECORDER:TOGGLE`: flip recording; the steps are kept either way. */
    method Toggle() returns (nowRecording: bool)
      modifies this
      ensures Valid()
      ensures isRecording == !old(isRecording) && nowRecording == isRecording
      ensures steps == old(steps)
      ensures captureScreenshots == old(captureScreenshots) && maskSensitive == old(maskSensitive)
    {
      isRecording := !isRecording;
      UpdateBadge();
      nowRecording := isRecording;
    }

    /** The keyboard command: only `toggle-recording` does anything, and it
        toggles like the popup's button and announces the new state. */
    method OnCommand(command: string) returns (announced: Option<bool>)
      modifies this
      requires Valid()
      ensures Valid()
      ensures command == "toggle-recording" ==> isRecording == !old(isRecording) && announced == Some(isRecording)
      ensures command != "toggle-recording" ==> isRecording == old(isRecording) && announced.None?
      ensures steps == old(steps)
      ensures captureScreenshots == old(captureScreenshots) && maskSensitive == old(maskSensitive)
    {
      if command == "toggle-recording" {
        var now := Toggle();
        announced := Some(now);
      } else {
        announced := None;
      }
    }

    /** `RECORDER:CLEAR`: forget every step; recording stays as it was. */
    method Clear()
      modifies this
      ensures Valid()
      ensures steps == [] && isRecording == old(isRecording)
      ensures captureScreenshots == old(captureScreenshots) && maskSensitive == old(maskSensitive)
    {
      steps := [];
      UpdateBadge();
    }

    /** `RECORDER:GET_STEPS`. */
    method GetSteps() returns (recorded: seq<Step>, recording: bool)
      ensures recorded == steps && recording == isRecording
    {
      recorded := steps;
      recording := isRecording;
    }

    /** `RECORDER:EVENT`: ignored unless recording; otherwise the step, with a
        screenshot when one is due, is appended, the new step and count are
        announced, and the badge is updated. */
    method RecordEvent(payload: Step, outcome: CaptureOutcome) returns (announced: Option<(Step, nat)>)
      requires Valid()
      modifies this
      ensures Valid()
      ensures !old(isRecording) ==> steps == old(steps) && announced.None? && badge == old(badge)
      ensures old(isRecording) ==>
        steps == old(steps) + [Enrich(payload, captureScreenshots, outcome)]
        && announced == Some((Enrich(payload, captureScreenshots, outcome), |steps|))
      ensures isRecording == old(isRecording)
      ensures captureScreenshots == old(captureScreenshots) && maskSensitive == old(maskSensitive)
    {
      if !isRecording {
        return None;
      }
      var step := payload;
      if captureScreenshots && (step.action == Click || step.action == Submit) {
        if outcome.Captured? {
          step := step.(screenshot := Some(outcome.dataUrl));
        }
      }
      steps := steps + [step];
      announced := Some((step, |steps|));
      UpdateBadge();
    }

    /** `RECORDER:EXPORT_MD`. */
    method ExportMarkdown(clock: int, fmtTime: int -> string) returns (md: string)
      ensures md == Join(MarkdownLines(steps, clock, fmtTime), "\n")
    {
      md := StepsToMarkdown(steps, clock, fmtTime);
    }

    /** `RECORDER:EXPORT_DOC`. */
    method ExportDoc(clock: int, fmtTime: int -> string) returns (html: string)
      ensures html == DocHtml(steps, clock, fmtTime)
    {
      html := DocHtml(steps, clock, fmtTime);
    }

    /** `RECORDER:EXPORT_PDF`. */
    method ExportPdf(clock: int, fmtTime: int -> string) returns (html: string)
      ensures html == PdfHtml(steps, clock, fmtTime)
    {
      html := PdfHtml(steps, clock, fmtTime);
    }
  }

  /** Recording then stopping keeps every step, and the badge goes blank. */
  method StopKeepsSteps(session: RecordingSession)
    requires session.Valid() && session.isRecording
    modifies session
    ensures session.steps == old(session.steps) && !session.isRecording && session.badge == ""
  {
    var _ := session.Toggle();
  }

  /** Events while not recording leave the log and the badge alone; events
      while recording are appended one after the other, in arrival order,
      each enriched under the current settings. */
  method TwoEvents(session: RecordingSession, a: Step, b: Step, oa: CaptureOutcome, ob: CaptureOutcome)
    requires session.Valid()
    modifies session
    ensures !old(session.isRecording) ==>
      session.steps == old(session.steps) && session.badge == old(session.badge)
    ensures old(session.isRecording) ==>
      session.steps == old(session.steps) + [Enrich(a, session.captureScreenshots, oa), Enrich(b, session.captureScreenshots, ob)]
    ensures session.isRecording == old(session.isRecording) && session.Valid()
    ensures |session.steps| == |old(session.steps)| + (if old(session.isRecording) then 2 else 0)
    ensures old(session.isRecording) ==> session.steps[|session.steps| - 1].action == b.action
  {
    var _ := session.RecordEvent(a, oa);
    var _ := session.RecordEvent(b, ob);
  }
}
