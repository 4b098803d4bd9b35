/** The decision logic of `process_image_with_hitem3d` and `_ensure_browser_deps`
    (hitem3d_client.py). The browser is replaced by a `Browser` value of oracles:
    the outcome of each launch and of the dependency install, how the wait
    for each upload selector ends, whether the upload is accepted, the wall clock at each
    evaluation of the poll loop's guard, the anchors seen at each poll tick and
    at each format's download attempt, and whether each format's download
    succeeds. */
module Hitem3dClient {
  import opened Text

  datatype Option<T> = None | Some(value: T)

  // ---------------------------------------------------------------------------
  // Runtime provisioning and browser launch (lines 9-18, 35-50)
  // ---------------------------------------------------------------------------

  /** The outcome of one `p.chromium.launch(headless=...)` call. */
  datatype LaunchAttempt = Launched | LaunchRaised(message: string)

  /** The exceptions that leave `process_image_with_hitem3d`. */
  datatype PipelineError =
    | LaunchFailed(message: string)    // a launch exception, re-raised unchanged
    | RuntimeError(message: string)    // raised by the client itself
    | UploadFailed(selector: string)   // `set_input_files` on the chosen locator raised
    | WaitRaised(selector: string, message: string)  // `wait_for` raised something other than a timeout

  datatype Result<T> = Ok(value: T) | Err(error: PipelineError)

  const DepsMissingMessage: string :=
    "Playwright system dependencies are missing and automatic installation failed."
  const DepsInstallFailedMessage: string :=
    "Playwright browser dependencies could not be installed. Install them manually with 'playwright install-deps'."
  const MissingDependenciesMarker: string := "missing dependencies"

  /** `_ensure_browser_deps`: running `playwright install --with-deps chromium` either succeeds or the
      function raises a RuntimeError carrying `DepsMissingMessage`. */
  function EnsureBrowserDeps(installSucceeds: bool): (raised: Option<PipelineError>)
    ensures raised.None? <==> installSucceeds
    ensures raised.Some? ==> raised.value == RuntimeError(DepsMissingMessage)
  {
    if installSucceeds then None else Some(RuntimeError(DepsMissingMessage))
  }

  /** `"missing dependencies" in str(exc).lower()` */
  predicate SignalsMissingDependencies(message: string) {
    Contains(Lower(message), MissingDependenciesMarker)
  }

  /** How the launch step ended: how many launches ran, whether the install
      ran, and the exception that escapes, if any. */
  datatype LaunchReport = LaunchReport(attempts: nat, installRan: bool, error: Option<PipelineError>)

  /** Lines 36-50: launch; on a "missing dependencies" failure install and
      launch once more; any other launch failure propagates unchanged. */
  function LaunchBrowser(first: LaunchAttempt, installSucceeds: bool, retry: LaunchAttempt): (r: LaunchReport)
    ensures 1 <= r.attempts <= 2
    ensures r.installRan <==> first.LaunchRaised? && SignalsMissingDependencies(first.message)
    ensures r.attempts == 2 <==> r.installRan && installSucceeds
    ensures r.error.None? <==> first.Launched? || (r.attempts == 2 && retry.Launched?)
    ensures first.LaunchRaised? && !r.installRan ==> r.error == Some(LaunchFailed(first.message))
    ensures r.installRan && !installSucceeds ==> r.error == Some(RuntimeError(DepsInstallFailedMessage))
    ensures r.attempts == 2 && retry.LaunchRaised? ==> r.error == Some(LaunchFailed(retry.message))
  {
    match first
    case Launched => LaunchReport(1, false, None)
    case LaunchRaised(message) =>
      if !SignalsMissingDependencies(message) then
        LaunchReport(1, false, Some(LaunchFailed(message)))
      else if EnsureBrowserDeps(installSucceeds).Some? then
        LaunchReport(1, true, Some(RuntimeError(DepsInstallFailedMessage)))
      else
        match retry
        case Launched => LaunchReport(2, true, None)
        case LaunchRaised(again) => LaunchReport(2, true, Some(LaunchFailed(again)))
  }

  // ---------------------------------------------------------------------------
  // Upload control (lines 58-77)
  // ---------------------------------------------------------------------------

  const CandidateSelectors: seq<string> := ["input[type=\"file\"]", "input[type=\"file\"][accept]"]

  /** How `locator(sel).first.wait_for(state="attached")` ends for one selector:
      the element attaches, the wait times out (caught at line 70), or it raises
      something else, which nothing in the function catches. */
  datatype WaitOutcome = Attached | TimedOut | Raised(message: string)

  /** The index of the first candidate whose wait does not time out, or the
      number of candidates when every wait times out. */
  function Decisive(candidates: seq<string>, waitFor: string -> WaitOutcome): (k: nat)
    ensures k <= |candidates|
    ensures k < |candidates| ==> !waitFor(candidates[k]).TimedOut?
    ensures forall j :: 0 <= j < k ==> waitFor(candidates[j]).TimedOut?
    decreases |candidates|
  {
    if candidates == [] || !waitFor(candidates[0]).TimedOut? then 0
    else
      var k := Decisive(candidates[1..], waitFor);
      assert forall j :: 1 <= j < k + 1 ==> candidates[j] == candidates[1..][j - 1];
      k + 1
  }

  /** The selector loop (lines 60-71): each candidate's locator is taken and
      waited for; the first wait that does not time out ends the loop, either
      attached or with its error escaping. When every wait times out, the
      locator of the last candidate is what remains; only an empty candidate
      list leaves no locator at all. `probed` counts the candidates waited for. */
  method SelectUploadControl(candidates: seq<string>, waitFor: string -> WaitOutcome)
    returns (chosen: Option<string>, outcome: WaitOutcome, probed: nat)
    ensures chosen.None? <==> candidates == []
    ensures Decisive(candidates, waitFor) < |candidates| ==>
      probed == Decisive(candidates, waitFor) + 1 &&
      chosen == Some(candidates[probed - 1]) && outcome == waitFor(candidates[probed - 1])
    ensures Decisive(candidates, waitFor) == |candidates| ==>
      probed == |candidates| && outcome == TimedOut &&
      (candidates != [] ==> chosen == Some(candidates[|candidates| - 1]))
    ensures outcome.Attached? <==>
      exists k :: 0 <= k < |candidates| && waitFor(candidates[k]).Attached? &&
        forall j :: 0 <= j < k ==> waitFor(candidates[j]).TimedOut?
  {
    chosen, outcome, probed := None, TimedOut, 0;
    while probed < |candidates|
      invariant probed <= |candidates|
      invariant chosen == if probed == 0 then None else Some(candidates[probed - 1])
      invariant forall k :: 0 <= k < probed ==> waitFor(candidates[k]).TimedOut?
      invariant outcome == TimedOut
    {
      chosen := Some(candidates[probed]);
      outcome := waitFor(candidates[probed]);
      probed := probed + 1;
      if !outcome.TimedOut? {
        break;
      }
    }
  }

  // ---------------------------------------------------------------------------
  // Format preferences (lines 30, 109-114)
  // ---------------------------------------------------------------------------

  const DefaultFormats: seq<string> := ["glb", "obj", "stl"]

  /** `prefer_formats or ["glb","obj","stl"]` */
  function EffectiveFormats(prefer: Option<seq<string>>): seq<string> {
    if prefer.None? || prefer.value == [] then DefaultFormats else prefer.value
  }

  /** `ext.lower().strip()` */
  function Clean(token: string): string {
    Strip(Lower(token))
  }

  /** A normalised format: non-empty, no upper-case letter, no surrounding whitespace. */
  predicate IsFormatToken(x: string) {
    x != [] && HasNoUpper(x) && !IsSpace(x[0]) && !IsSpace(x[|x| - 1])
  }

  /** `ext.lower().strip()` applied to every token, in order. */
  function CleanAll(raw: seq<string>): (ts: seq<string>)
    ensures |ts| == |raw| && forall i :: 0 <= i < |raw| ==> ts[i] == Clean(raw[i])
  {
    seq(|raw|, i requires 0 <= i < |raw| => Clean(raw[i]))
  }

  /** The download loop's skipping rule over cleaned tokens: empty ones and ones
      already in the `tried` set are passed over. Written as a fold from the
      left, the order in which the loop visits the tokens. */
  function Dedup(ts: seq<string>): seq<string>
    decreases |ts|
  {
    if ts == [] then []
    else
      var prev := Dedup(ts[..|ts| - 1]);
      var t := ts[|ts| - 1];
      if t == [] || t in prev then prev else prev + [t]
  }

  /** The formats the download loop attempts, in order. */
  function Normalize(raw: seq<string>): seq<string> {
    Dedup(CleanAll(raw))
  }

  /** The index of the first occurrence of `x` in `ts`, or `|ts|`. */
  function FirstIndex(ts: seq<string>, x: string): (r: nat)
    ensures r <= |ts|
    ensures r < |ts| ==> ts[r] == x
    ensures forall k :: 0 <= k < r && k < |ts| ==> ts[k] != x
    decreases |ts|
  {
    if ts == [] then 0
    else
      var f := FirstIndex(ts[..|ts| - 1], x);
      if f < |ts| - 1 then f
      else if ts[|ts| - 1] == x then |ts| - 1
      else |ts|
  }

  lemma CleanIsToken(token: string)
    requires Clean(token) != []
    ensures IsFormatToken(Clean(token))
  {
    LowerHasNoUpper(token);
    StripKeepsNoUpper(Lower(token));
    var l := Lower(token);
    var t := l[LeadingSpaces(l)..];
    assert Clean(token)[0] == t[0];
  }

  /** A string is kept exactly when it occurs among the tokens and is not empty. */
  lemma {:induction false} DedupMembers(ts: seq<string>, x: string)
    ensures x in Dedup(ts) <==> x != [] && x in ts
    decreases |ts|
  {
    if ts != [] {
      DedupMembers(ts[..|ts| - 1], x);
      assert ts == ts[..|ts| - 1] + [ts[|ts| - 1]];
    }
  }

  /** No string is kept twice. */
  lemma {:induction false} DedupDistinct(ts: seq<string>)
    ensures forall i, j :: 0 <= i < j < |Dedup(ts)| ==> Dedup(ts)[i] != Dedup(ts)[j]
    decreases |ts|
  {
    if ts != [] {
      DedupDistinct(ts[..|ts| - 1]);
    }
  }

  /** Kept strings appear in first-seen order. */
  lemma {:induction false} DedupFirstSeenOrder(ts: seq<string>, i: int, j: int)
    requires 0 <= i < j < |Dedup(ts)|
    ensures FirstIndex(ts, Dedup(ts)[i]) < FirstIndex(ts, Dedup(ts)[j])
    decreases |ts|
  {
    var init := ts[..|ts| - 1];
    var prev := Dedup(init);
    var x, y := Dedup(ts)[i], Dedup(ts)[j];
    assert x in prev by {
      assert i < |prev|;
    }
    DedupMembers(init, x);
    if j < |prev| {
      DedupFirstSeenOrder(init, i, j);
      DedupMembers(init, y);
    } else {
      assert y == ts[|ts| - 1] && y !in prev;
      DedupMembers(init, y);
    }
  }

  /** A format is attempted exactly when some token cleans to it and it is not empty. */
  lemma NormalizeMembers(raw: seq<string>, x: string)
    ensures x in Normalize(raw) <==> x != [] && exists i :: 0 <= i < |raw| && Clean(raw[i]) == x
  {
    DedupMembers(CleanAll(raw), x);
    if x in CleanAll(raw) {
      var i :| 0 <= i < |raw| && CleanAll(raw)[i] == x;
    }
  }

  /** No format is attempted twice. */
  lemma NormalizeDistinct(raw: seq<string>)
    ensures forall i, j :: 0 <= i < j < |Normalize(raw)| ==> Normalize(raw)[i] != Normalize(raw)[j]
  {
    DedupDistinct(CleanAll(raw));
  }

  /** Every attempted format is lower-case, stripped and non-empty. */
  lemma NormalizeTokens(raw: seq<string>)
    ensures forall x :: x in Normalize(raw) ==> IsFormatToken(x)
  {
    forall x | x in Normalize(raw) ensures IsFormatToken(x) {
      NormalizeMembers(raw, x);
      var i :| 0 <= i < |raw| && Clean(raw[i]) == x;
      CleanIsToken(raw[i]);
    }
  }

  /** Attempt order is first-seen order: of two attempted formats, the one
      attempted earlier is the first to occur among the cleaned tokens. */
  lemma NormalizeFirstSeenOrder(raw: seq<string>, i: int, j: int)
    requires 0 <= i < j < |Normalize(raw)|
    ensures FirstIndex(CleanAll(raw), Normalize(raw)[i]) < FirstIndex(CleanAll(raw), Normalize(raw)[j])
  {
    DedupFirstSeenOrder(CleanAll(raw), i, j);
  }

  /** A word of ASCII letters has nothing to strip; cleaning only lower-cases it. */
  lemma CleanLetters(w: string)
    requires forall i :: 0 <= i < |w| ==> IsUpper(w[i]) || 'a' <= w[i] <= 'z'
    ensures Clean(w) == Lower(w)
  {
    var l := Lower(w);
    if l != [] {
      LowerAt(w, 0);
      LetterIsNoSpace(w[0]);
      LowerAt(w, |w| - 1);
      LetterIsNoSpace(w[|w| - 1]);
    }
    StripUnspaced(l);
  }

  lemma LetterIsNoSpace(c: char)
    requires IsUpper(c) || 'a' <= c <= 'z'
    ensures !IsSpace(LowerChar(c))
  {
  }

  /** A word of lower-case ASCII letters is its own cleaned form. */
  lemma CleanLowerWord(w: string)
    requires forall i :: 0 <= i < |w| ==> 'a' <= w[i] <= 'z'
    ensures Clean(w) == w
  {
    CleanLetters(w);
    forall i | 0 <= i < |w| ensures Lower(w)[i] == w[i] {
      LowerAt(w, i);
    }
  }

  lemma DedupExample(ts: seq<string>)
    requires |ts| == 4 && ts[0] == "glb" && ts[1] == "" && ts[2] == "glb" && ts[3] == "obj"
    ensures Dedup(ts) == ["glb", "obj"]
  {
    assert ts[..3][..2][..1][..0] == [];
    assert Dedup(ts[..3][..2][..1]) == ["glb"];
    assert Dedup(ts[..3][..2]) == ["glb"];
    assert Dedup(ts[..3]) == ["glb"];
  }

  lemma CleanUpperGlb(t: string)
    requires t == "GLB"
    ensures Clean(t) == "glb"
  {
    CleanLetters(t);
    LowerAt(t, 0);
    LowerAt(t, 1);
    LowerAt(t, 2);
  }

  lemma ExampleCleaned(raw: seq<string>)
    requires raw == ["GLB", "", "glb", "obj"]
    ensures var ts := CleanAll(raw);
      |ts| == 4 && ts[0] == "glb" && ts[1] == "" && ts[2] == "glb" && ts[3] == "obj"
  {
    CleanUpperGlb(raw[0]);
    CleanLowerWord(raw[1]);
    CleanLowerWord(raw[2]);
    CleanLowerWord(raw[3]);
  }

  /** `["GLB", "", "glb", "obj"]` attempts `["glb", "obj"]`. */
  lemma NormalizeExample(raw: seq<string>)
    requires raw == ["GLB", "", "glb", "obj"]
    ensures Normalize(raw) == ["glb", "obj"]
  {
    ExampleCleaned(raw);
    DedupExample(CleanAll(raw));
  }

  /** Tokens that are all non-empty and distinct are kept as they are. */
  lemma {:induction false} DedupKeepsDistinct(ts: seq<string>)
    requires forall i :: 0 <= i < |ts| ==> ts[i] != []
    requires forall i, j :: 0 <= i < j < |ts| ==> ts[i] != ts[j]
    ensures Dedup(ts) == ts
    decreases |ts|
  {
    if ts != [] {
      var init := ts[..|ts| - 1];
      DedupKeepsDistinct(init);
      assert ts[|ts| - 1] !in init;
    }
  }

  /** A list that is already normal (clean, non-empty, distinct tokens) is
      attempted exactly as given. */
  lemma NormalizeKeepsNormal(raw: seq<string>)
    requires forall i :: 0 <= i < |raw| ==> raw[i] != [] && Clean(raw[i]) == raw[i]
    requires forall i, j :: 0 <= i < j < |raw| ==> raw[i] != raw[j]
    ensures Normalize(raw) == raw
  {
    assert CleanAll(raw) == raw;
    DedupKeepsDistinct(raw);
  }

  /** With no preference, or an empty one, exactly glb, obj, stl are attempted, in that order. */
  lemma DefaultAttemptOrder(prefer: Option<seq<string>>)
    requires prefer.None? || prefer.value == []
    ensures Normalize(EffectiveFormats(prefer)) == ["glb", "obj", "stl"]
  {
    var raw := EffectiveFormats(prefer);
    forall i | 0 <= i < |raw| ensures raw[i] != [] && Clean(raw[i]) == raw[i] {
      CleanLowerWord(raw[i]);
    }
    NormalizeKeepsNormal(raw);
  }

  /** A normalised format is its own cleaned form. */
  lemma CleanToken(x: string)
    requires IsFormatToken(x)
    ensures Clean(x) == x
  {
    LowerNoUpper(x);
    StripUnspaced(x);
  }

  /** Normalising twice attempts the same formats as normalising once. */
  lemma NormalizeIdempotent(raw: seq<string>)
    ensures Normalize(Normalize(raw)) == Normalize(raw)
  {
    var out := Normalize(raw);
    NormalizeTokens(raw);
    NormalizeDistinct(raw);
    forall i | 0 <= i < |out| ensures out[i] != [] && Clean(out[i]) == out[i] {
      assert out[i] in out;
      CleanToken(out[i]);
    }
    NormalizeKeepsNormal(out);
  }

  // ---------------------------------------------------------------------------
  // Waiting for generation (lines 79-106)
  // ---------------------------------------------------------------------------

  /** What `eval_on_selector_all("a", ...)` reports for one anchor. */
  datatype Anchor = Anchor(href: string, text: string)

  /** The compiled pattern `\.(?:f1|f2|...)$` with `re.I`. Every alternative
      went through `re.escape`, so each one is matched literally. */
  datatype ExtensionPattern = ExtensionPattern(alternatives: seq<string>)

  /** `href` ends with a dot followed by `ext`, ignoring case. */
  predicate EndsWithExtension(href: string, ext: string) {
    EndsWith(Lower(href), "." + Lower(ext))
  }

  /** The alternation, tried one alternative after another. */
  function AnyAlternative(alternatives: seq<string>, href: string): (r: bool)
    ensures r <==> exists k :: 0 <= k < |alternatives| && EndsWithExtension(href, alternatives[k])
  {
    if alternatives == [] then false
    else
      assert forall k :: 1 <= k < |alternatives| ==> alternatives[k] == alternatives[1..][k - 1];
      EndsWithExtension(href, alternatives[0]) || AnyAlternative(alternatives[1..], href)
  }

  /** `pat.search(href)` */
  function Search(p: ExtensionPattern, href: string): bool {
    AnyAlternative(p.alternatives, href)
  }

  /** Lines 86-89. `"|".join` of no alternatives gives the empty group, which
      matches exactly what the single empty alternative matches. */
  function CompilePattern(formats: seq<string>): (p: ExtensionPattern)
    ensures formats != [] ==>
      forall href :: Search(p, href) <==> exists f :: f in formats && EndsWithExtension(href, f)
    ensures formats == [] ==>
      forall href :: Search(p, href) <==> EndsWith(Lower(href), ".")
  {
    ExtensionPattern(if formats == [] then [""] else formats)
  }

  /** `find_href_links` (lines 91-93): the anchors with a non-empty href the pattern finds. */
  function FindHrefLinks(anchors: seq<Anchor>, p: ExtensionPattern): (links: seq<Anchor>)
    ensures |links| <= |anchors|
    ensures forall a :: a in links <==> a in anchors && a.href != "" && Search(p, a.href)
  {
    if anchors == [] then []
    else
      var rest := FindHrefLinks(anchors[1..], p);
      assert forall a :: a in anchors <==> a == anchors[0] || a in anchors[1..];
      if anchors[0].href != "" && Search(p, anchors[0].href) then [anchors[0]] + rest else rest
  }

  /** The loop sleeps this long (`page.wait_for_timeout(2000)`) before each scan. */
  const PollIntervalMs: int := 2000

  /** `clock(k)` is the time in milliseconds at the k-th evaluation of the
      loop's guard; each iteration sleeps one interval, so the clock advances
      at least that much between two evaluations. */
  ghost predicate PollClock(clock: nat -> int) {
    forall k: nat :: clock(k) + PollIntervalMs <= clock(k + 1)
  }

  /** `time.time() + (wait_minutes * 60)`, in milliseconds. */
  function Deadline(start: int, waitMinutes: int): int {
    start + waitMinutes * 60 * 1000
  }

  /** The most ticks a wait of `waitMinutes` can run: one per interval. */
  function TickBound(waitMinutes: int): nat {
    if waitMinutes > 0 then waitMinutes * 30 else 0
  }

  /** Some tick that starts before the deadline sees a matching link. */
  ghost predicate LinkAppearsBy(deadline: int, clock: nat -> int, poll: nat -> seq<Anchor>, p: ExtensionPattern) {
    exists k: nat :: clock(k) < deadline && FindHrefLinks(poll(k), p) != []
  }

  lemma {:induction false} ClockAdvances(clock: nat -> int, i: nat, j: nat)
    requires PollClock(clock) && i <= j
    ensures clock(i) + PollIntervalMs * (j - i) <= clock(j)
    decreases j - i
  {
    if i < j {
      ClockAdvances(clock, i, j - 1);
      assert clock(j - 1) + PollIntervalMs <= clock(j - 1 + 1);
    }
  }

  /** With `wait_minutes <= 0` the deadline has passed before the first guard
      evaluation, so no tick runs and no link can be found. */
  lemma {:induction false} NoWaitNoLink(start: int, waitMinutes: int, clock: nat -> int,
                                        poll: nat -> seq<Anchor>, p: ExtensionPattern)
    requires start <= clock(0) && PollClock(clock) && waitMinutes <= 0
    ensures !LinkAppearsBy(Deadline(start, waitMinutes), clock, poll, p)
  {
    forall k: nat ensures clock(k) >= Deadline(start, waitMinutes) {
      ClockAdvances(clock, 0, k);
    }
  }

  /** The wait-stage test for one anchor (lines 86-93): it is found exactly
      when its href is non-empty and ends, ignoring case, with a dot followed by
      one of the preferred formats as given. */
  lemma WaitStageMatch(prefer: Option<seq<string>>, anchors: seq<Anchor>, a: Anchor)
    ensures a in FindHrefLinks(anchors, CompilePattern(EffectiveFormats(prefer))) <==>
      a in anchors && a.href != "" &&
      exists f :: f in EffectiveFormats(prefer) && EndsWith(Lower(a.href), "." + Lower(f))
  {
  }

  /** For a normalised format the wait-stage test and the download-stage
      filter of line 119 agree; they differ only for raw tokens that cleaning
      changes. */
  lemma FiltersAgree(href: string, ext: string)
    requires IsFormatToken(ext)
    ensures EndsWithExtension(href, ext) <==> EndsWith(Lower(href), "." + ext)
  {
    LowerNoUpper(ext);
  }

  /** The poll loop (lines 96-102). `poll(k)` is the page's anchors at tick k.
      It stops at the first tick whose scan finds a link; otherwise it ends when
      the guard first sees the deadline reached. */
  method WaitForLinks(start: int, waitMinutes: int, clock: nat -> int, poll: nat -> seq<Anchor>, p: ExtensionPattern)
    returns (found: bool, ticks: nat)
    requires start <= clock(0) && PollClock(clock)
    ensures found <==> LinkAppearsBy(Deadline(start, waitMinutes), clock, poll, p)
    ensures ticks <= TickBound(waitMinutes)
    ensures forall k: nat :: k < ticks ==> clock(k) < Deadline(start, waitMinutes)
    ensures found ==>
      ticks >= 1 && FindHrefLinks(poll(ticks - 1), p) != [] &&
      forall k: nat :: k < ticks - 1 ==> FindHrefLinks(poll(k), p) == []
    ensures !found ==>
      clock(ticks) >= Deadline(start, waitMinutes) &&
      forall k: nat :: k < ticks ==> FindHrefLinks(poll(k), p) == []
  {
    var deadline := Deadline(start, waitMinutes);
    found, ticks := false, 0;
    while clock(ticks) < deadline
      invariant start + PollIntervalMs * ticks <= clock(ticks)
      invariant ticks <= TickBound(waitMinutes)
      invariant forall k: nat :: k < ticks ==> clock(k) < deadline && FindHrefLinks(poll(k), p) == []
      decreases deadline - clock(ticks)
    {
      var links := FindHrefLinks(poll(ticks), p);
      assert clock(ticks) + PollIntervalMs <= clock(ticks + 1);
      ticks := ticks + 1;
      if links != [] {
        found := true;
        break;
      }
    }
    if !found {
      forall k: nat | clock(k) < deadline ensures FindHrefLinks(poll(k), p) == [] {
        if k >= ticks {
          ClockAdvances(clock, ticks, k);
        }
      }
    }
  }

  // ---------------------------------------------------------------------------
  // Downloading (lines 108-129)
  // ---------------------------------------------------------------------------

  /** `str((Path(out_dir) / f"model.{ext}").resolve())`, without the resolution. */
  function SavePath(outDir: string, ext: string): string {
    outDir + "/model." + ext
  }

  /** Line 119: the anchors whose lower-cased href ends with `"." + ext`. */
  function Matching(anchors: seq<Anchor>, ext: string): (m: seq<Anchor>)
    ensures |m| <= |anchors|
    ensures forall a :: a in m <==> a in anchors && EndsWith(Lower(a.href), "." + ext)
  {
    if anchors == [] then []
    else
      var rest := Matching(anchors[1..], ext);
      assert forall a :: a in anchors <==> a == anchors[0] || a in anchors[1..];
      if EndsWith(Lower(anchors[0].href), "." + ext) then [anchors[0]] + rest else rest
  }

  /** The attempt for `ext` saves a file: the page offers a matching link and
      the click, capture and save all succeed. */
  predicate Saves(ext: string, anchorsFor: string -> seq<Anchor>, downloads: string -> bool) {
    Matching(anchorsFor(ext), ext) != [] && downloads(ext)
  }

  /** The paths saved by attempting `exts` in order, each attempt on its own. */
  function Downloaded(exts: seq<string>, outDir: string, anchorsFor: string -> seq<Anchor>, downloads: string -> bool): seq<string>
    decreases |exts|
  {
    if exts == [] then []
    else
      var prev := Downloaded(exts[..|exts| - 1], outDir, anchorsFor, downloads);
      var ext := exts[|exts| - 1];
      if Saves(ext, anchorsFor, downloads) then prev + [SavePath(outDir, ext)] else prev
  }

  lemma CleanAllExtend(formats: seq<string>, i: nat)
    requires i < |formats|
    ensures CleanAll(formats[..i + 1])[..i] == CleanAll(formats[..i])
    ensures CleanAll(formats[..i + 1])[i] == Clean(formats[i])
  {
  }

  /** The download loop. `anchorsFor(ext)` is the page's anchors when `ext` is
      attempted; `downloads(ext)` is false when clicking, capturing or saving
      raises, which the loop catches and logs. */
  method DownloadFormats(formats: seq<string>, outDir: string, anchorsFor: string -> seq<Anchor>, downloads: string -> bool)
    returns (paths: seq<string>, attempted: seq<string>)
    ensures attempted == Normalize(formats)
    ensures paths == Downloaded(attempted, outDir, anchorsFor, downloads)
  {
    var tried: set<string> := {};
    paths, attempted := [], [];
    for i := 0 to |formats|
      invariant attempted == Dedup(CleanAll(formats[..i]))
      invariant forall x :: x in tried <==> x in attempted
      invariant paths == Downloaded(attempted, outDir, anchorsFor, downloads)
    {
      CleanAllExtend(formats, i);
      var ext := Clean(formats[i]);
      if ext == [] || ext in tried {
        continue;
      }
      tried := tried + {ext};
      attempted := attempted + [ext];
      var matching := Matching(anchorsFor(ext), ext);
      if matching != [] && downloads(ext) {
        paths := paths + [SavePath(outDir, ext)];
      }
    }
    assert formats[..|formats|] == formats;
  }

  lemma SavePathInjective(outDir: string, e1: string, e2: string)
    requires SavePath(outDir, e1) == SavePath(outDir, e2)
    ensures e1 == e2
  {
    var n := |outDir + "/model."|;
    assert e1 == SavePath(outDir, e1)[n..];
    assert e2 == SavePath(outDir, e2)[n..];
  }

  /** Every saved path is `outDir/model.<ext>` for an attempted `ext` that had a
      matching link and downloaded. */
  lemma {:induction false} DownloadedPaths(exts: seq<string>, outDir: string, anchorsFor: string -> seq<Anchor>, downloads: string -> bool)
    ensures forall path :: path in Downloaded(exts, outDir, anchorsFor, downloads) <==>
      exists ext :: ext in exts && path == SavePath(outDir, ext) && Saves(ext, anchorsFor, downloads)
    decreases |exts|
  {
    if exts != [] {
      var init := exts[..|exts| - 1];
      DownloadedPaths(init, outDir, anchorsFor, downloads);
      assert exts == init + [exts[|exts| - 1]];
    }
  }

  /** Failure isolation: `outDir/model.<ext>` is saved exactly when `ext` is
      attempted and its own attempt succeeds, whatever happens to the others. */
  lemma SavedIff(exts: seq<string>, outDir: string, anchorsFor: string -> seq<Anchor>, downloads: string -> bool, ext: string)
    ensures SavePath(outDir, ext) in Downloaded(exts, outDir, anchorsFor, downloads) <==>
      ext in exts && Saves(ext, anchorsFor, downloads)
  {
    DownloadedPaths(exts, outDir, anchorsFor, downloads);
    if SavePath(outDir, ext) in Downloaded(exts, outDir, anchorsFor, downloads) {
      var e :| e in exts && SavePath(outDir, ext) == SavePath(outDir, e) && Saves(e, anchorsFor, downloads);
      SavePathInjective(outDir, ext, e);
    }
  }

  /** No path is saved twice when no format is attempted twice. */
  lemma {:induction false} DownloadedDistinct(exts: seq<string>, outDir: string, anchorsFor: string -> seq<Anchor>, downloads: string -> bool)
    requires forall i, j :: 0 <= i < j < |exts| ==> exts[i] != exts[j]
    ensures forall i, j :: 0 <= i < j < |Downloaded(exts, outDir, anchorsFor, downloads)| ==>
      Downloaded(exts, outDir, anchorsFor, downloads)[i] != Downloaded(exts, outDir, anchorsFor, downloads)[j]
    decreases |exts|
  {
    if exts != [] {
      var init := exts[..|exts| - 1];
      var ext := exts[|exts| - 1];
      DownloadedDistinct(init, outDir, anchorsFor, downloads);
      if Saves(ext, anchorsFor, downloads) {
        SavedIff(init, outDir, anchorsFor, downloads, ext);
        assert ext !in init;
      }
    }
  }

  /** One format's failure never changes the outcome of another: two runs whose
      download outcomes differ only at `broken` save the same paths for every
      other format. */
  lemma FailureIsolation(exts: seq<string>, outDir: string, anchorsFor: string -> seq<Anchor>,
                         downloads: string -> bool, downloads': string -> bool, broken: string, ext: string)
    requires forall e :: e != broken ==> downloads(e) == downloads'(e)
    requires ext != broken
    ensures SavePath(outDir, ext) in Downloaded(exts, outDir, anchorsFor, downloads) <==>
            SavePath(outDir, ext) in Downloaded(exts, outDir, anchorsFor, downloads')
  {
    SavedIff(exts, outDir, anchorsFor, downloads, ext);
    SavedIff(exts, outDir, anchorsFor, downloads', ext);
  }

  /** What the download stage returns, stated over the raw preference list:
      distinct paths, each `outDir/model.<ext>` for a normalised format that was
      attempted, had a matching link and downloaded. */
  lemma DownloadStageResult(formats: seq<string>, outDir: string, anchorsFor: string -> seq<Anchor>, downloads: string -> bool)
    ensures var paths := Downloaded(Normalize(formats), outDir, anchorsFor, downloads);
      (forall i, j :: 0 <= i < j < |paths| ==> paths[i] != paths[j]) &&
      (forall path :: path in paths <==>
        exists ext :: ext in Normalize(formats) && IsFormatToken(ext) &&
          path == SavePath(outDir, ext) && Saves(ext, anchorsFor, downloads))
  {
    NormalizeDistinct(formats);
    NormalizeTokens(formats);
    DownloadedDistinct(Normalize(formats), outDir, anchorsFor, downloads);
    DownloadedPaths(Normalize(formats), outDir, anchorsFor, downloads);
  }

  /** Scenario: with the default formats, a page that offers no
      glb link but an stl link, and an obj download that breaks, exactly
      `<outDir>/model.stl` is saved. */
  lemma ScenarioSavesStl(prefer: Option<seq<string>>, outDir: string,
                         anchorsFor: string -> seq<Anchor>, downloads: string -> bool)
    requires prefer.None? || prefer.value == []
    requires Matching(anchorsFor("glb"), "glb") == [] && !downloads("obj")
    requires Matching(anchorsFor("stl"), "stl") != [] && downloads("stl")
    ensures Downloaded(Normalize(EffectiveFormats(prefer)), outDir, anchorsFor, downloads) == [SavePath(outDir, "stl")]
  {
    DefaultAttemptOrder(prefer);
    ScenarioDownloads(Normalize(EffectiveFormats(prefer)), outDir, anchorsFor, downloads);
  }

  lemma ScenarioDownloads(exts: seq<string>, outDir: string,
                          anchorsFor: string -> seq<Anchor>, downloads: string -> bool)
    requires |exts| == 3 && exts[0] == "glb" && exts[1] == "obj" && exts[2] == "stl"
    requires !Saves("glb", anchorsFor, downloads) && !Saves("obj", anchorsFor, downloads)
    requires Saves("stl", anchorsFor, downloads)
    ensures Downloaded(exts, outDir, anchorsFor, downloads) == [SavePath(outDir, "stl")]
  {
    var one, two := exts[..1], exts[..2];
    assert one[..0] == [] && two[..1] == one && exts[..2] == two;
    assert Downloaded(one, outDir, anchorsFor, downloads) == [];
    assert Downloaded(two, outDir, anchorsFor, downloads) == [];
  }

  // ---------------------------------------------------------------------------
  // The whole run (lines 20-134)
  // ---------------------------------------------------------------------------

  /** Everything the browser, the installer and the clock answer during one run. */
  datatype Browser = Browser(
    firstLaunch: LaunchAttempt,
    installSucceeds: bool,
    retryLaunch: LaunchAttempt,
    waitFor: string -> WaitOutcome,
    uploadAccepted: bool,
    now: int,
    clock: nat -> int,
    poll: nat -> seq<Anchor>,
    anchorsFor: string -> seq<Anchor>,
    downloads: string -> bool)

  /** The returned paths, with the formats the download loop attempted and
      whether the wait ended at the deadline; the last two are only logged. */
  datatype Run = Run(paths: seq<string>, attempted: seq<string>, timedOut: bool)

  function Launch(b: Browser): LaunchReport {
    LaunchBrowser(b.firstLaunch, b.installSucceeds, b.retryLaunch)
  }

  /** The outcome of the wait that ends the selector loop: the first one that
      does not time out, or a timeout when all of them do. */
  function UploadWait(b: Browser): WaitOutcome {
    var d := Decisive(CandidateSelectors, b.waitFor);
    if d < |CandidateSelectors| then b.waitFor(CandidateSelectors[d]) else TimedOut
  }

  /** `process_image_with_hitem3d`. `b.now` is `time.time()` when the deadline
      is computed; `b.clock` starts no earlier. */
  method ProcessImage(outDir: string, prefer: Option<seq<string>>, waitMinutes: int, b: Browser)
    returns (r: Result<Run>)
    requires b.now <= b.clock(0) && PollClock(b.clock)
    ensures Launch(b).error.Some? ==> r == Err(Launch(b).error.value)
    ensures Launch(b).error.None? && UploadWait(b).Raised? ==>
      r.Err? && r.error.WaitRaised? && r.error.selector in CandidateSelectors &&
      r.error.message == UploadWait(b).message
    ensures Launch(b).error.None? && !UploadWait(b).Raised? && !b.uploadAccepted ==>
      r.Err? && r.error.UploadFailed? && r.error.selector in CandidateSelectors
    ensures r.Ok? <==> Launch(b).error.None? && !UploadWait(b).Raised? && b.uploadAccepted
    ensures r.Ok? ==>
      (r.value.timedOut <==>
        !LinkAppearsBy(Deadline(b.now, waitMinutes), b.clock, b.poll, CompilePattern(EffectiveFormats(prefer))))
    ensures r.Ok? && r.value.timedOut ==> r.value.paths == [] && r.value.attempted == []
    ensures r.Ok? && waitMinutes <= 0 ==> r.value.timedOut && r.value.paths == []
    ensures r.Ok? && !r.value.timedOut ==>
      r.value.attempted == Normalize(EffectiveFormats(prefer)) &&
      r.value.paths == Downloaded(r.value.attempted, outDir, b.anchorsFor, b.downloads)
  {
    var formats := EffectiveFormats(prefer);
    var launch := LaunchBrowser(b.firstLaunch, b.installSucceeds, b.retryLaunch);
    if launch.error.Some? {
      return Err(launch.error.value);
    }
    var chosen, outcome, probed := SelectUploadControl(CandidateSelectors, b.waitFor);
    var selector := chosen.value;
    if outcome.Raised? {
      return Err(WaitRaised(selector, outcome.message));
    }
    if !b.uploadAccepted {
      return Err(UploadFailed(selector));
    }
    var pattern := CompilePattern(formats);
    var found, ticks := WaitForLinks(b.now, waitMinutes, b.clock, b.poll, pattern);
    if waitMinutes <= 0 {
      NoWaitNoLink(b.now, waitMinutes, b.clock, b.poll, pattern);
    }
    if !found {
      return Ok(Run([], [], true));
    }
    var paths, attempted := DownloadFormats(formats, outDir, b.anchorsFor, b.downloads);
    return Ok(Run(paths, attempted, false));
  }
}
