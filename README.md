# hitem3d client and deal dashboard, modelled in Dafny

This project models two parts of the repository.

- **The control logic of `process_image_with_hitem3d`** (hitem3d_client.py). It covers:
  - the launch with its single retry after installing browser dependencies (`_ensure_browser_deps`);
  - the choice of the upload control;
  - the download-link pattern built from the preferred formats;
  - the bounded poll loop that waits for links;
  - the per-format download loop that normalises and de-duplicates the formats and isolates each failure.
- **The `Dashboard` deal tracker** (dashboard.py): a class whose list of deals only grows, and whose summary reports how many deals there are.

## Files

- **text.dfy (module `Text`).** The string operations the client relies on: `lower()`, `strip()`, `endswith` and the substring test.
- **hitem3d_client.dfy (module `Hitem3dClient`).** The browser is replaced by a `Browser` value of oracles:
  - the outcome of each launch and of the dependency install;
  - how the wait for each upload selector ends (attached, timed out, or another error), and whether the upload is accepted;
  - the wall clock at each evaluation of the poll loop's guard, in milliseconds;
  - the anchors on the page at each poll tick and at each format's download attempt;
  - whether each format's click, capture and save succeed.

  Given those oracles, `ProcessImage` is the whole function. `WaitForLinks`, `DownloadFormats` and `SelectUploadControl` are its loops, proved against the specification functions `LinkAppearsBy`, `Normalize` and `Downloaded`.
- **dashboard.dfy (module `Deals`).** The class `Dashboard` with its `deals` field, plus `TrackDeals`, which records one deal per listing on a fresh dashboard and then takes the summary.

## Model

| member | source | states |
|---|---|---|
| Hitem3dClient.LaunchBrowser | hitem3d_client.py:36-50 | At most two launches. The install runs exactly when the first launch raises an error whose lower-cased message contains "missing dependencies". A second launch happens exactly when that install succeeded. Any other launch error propagates unchanged. A failed install raises RuntimeError with the manual-install message. A failed retry propagates its own error. |
| Hitem3dClient.EnsureBrowserDeps | hitem3d_client.py:9-18 | The install either succeeds, or raises RuntimeError with the "dependencies are missing" message. |
| Hitem3dClient.Decisive | hitem3d_client.py:65-71 | The loop is decided by the first candidate whose wait does not time out; every earlier wait timed out. It is the candidate count when every wait times out. |
| Hitem3dClient.SelectUploadControl | hitem3d_client.py:60-71 | The loop waits on candidates up to and including the first wait that does not time out, and no later candidate is waited for. That candidate's locator is chosen, and its outcome (attached, or an error that escapes) ends the loop. The outcome is "attached" iff some candidate attaches after only timeouts before it. When every wait times out, all candidates were waited for and the last one's locator remains. No locator remains only for an empty candidate list. |
| Hitem3dClient.DefaultAttemptOrder | hitem3d_client.py:30 | With `prefer_formats` None or empty, exactly glb, obj and stl are attempted, in that order. |
| Hitem3dClient.NormalizeMembers | hitem3d_client.py:109-114 | A format is attempted iff it is non-empty and some preferred token lower-cases and strips to it. |
| Hitem3dClient.NormalizeDistinct | hitem3d_client.py:109-114 | No format is attempted twice. |
| Hitem3dClient.NormalizeTokens | hitem3d_client.py:111 | Every attempted format is non-empty, has no upper-case letter and no surrounding whitespace. |
| Hitem3dClient.NormalizeFirstSeenOrder | hitem3d_client.py:109-114 | Of two attempted formats, the one attempted first occurs first among the cleaned tokens. |
| Hitem3dClient.NormalizeKeepsNormal | hitem3d_client.py:109-114 | A list of clean, non-empty, distinct tokens is attempted exactly as given. |
| Hitem3dClient.NormalizeIdempotent | hitem3d_client.py:109-114 | Normalising the attempted formats again changes nothing. |
| Hitem3dClient.NormalizeExample | hitem3d_client.py:109-114 | `["GLB", "", "glb", "obj"]` attempts exactly `["glb", "obj"]`. |
| Hitem3dClient.CompilePattern | hitem3d_client.py:86-89 | For a non-empty format list, the pattern finds an href iff its lower-cased form ends with "." followed by some format, lower-cased. For an empty list, the empty group matches any href ending in ".". |
| Hitem3dClient.FindHrefLinks | hitem3d_client.py:91-93 | An anchor is kept iff it is on the page, has a non-empty href and the pattern finds that href. |
| Hitem3dClient.WaitStageMatch | hitem3d_client.py:30-93 | With the effective formats, an anchor is a wait-stage link iff its href is non-empty and ends, ignoring case, with "." followed by one of the formats as given. |
| Hitem3dClient.FiltersAgree | hitem3d_client.py:86-93 | For a normalised format, the wait-stage test and the download-stage filter of line 119 agree. |
| Hitem3dClient.ClockAdvances | hitem3d_client.py:97-98 | Each tick sleeps 2000 ms, so j-i ticks advance the clock by at least 2000·(j-i) ms. |
| Hitem3dClient.WaitForLinks | hitem3d_client.py:80-106 | Links are found iff some tick that starts before the deadline scans a matching link. The loop stops at the first such tick, and no earlier tick matched. Otherwise it ends at the first guard evaluation at or after the deadline. It runs at most `wait_minutes`·30 ticks. |
| Hitem3dClient.NoWaitNoLink | hitem3d_client.py:80-97 | With `wait_minutes <= 0` no tick can find a link. |
| Hitem3dClient.Matching | hitem3d_client.py:119 | An anchor is kept iff its lower-cased href ends with "." + ext. |
| Hitem3dClient.DownloadFormats | hitem3d_client.py:108-129 | The formats attempted are exactly the normalised list, in order. The paths returned are exactly those of the attempts that had a matching link and downloaded. |
| Hitem3dClient.SavePathInjective | hitem3d_client.py:124 | Different formats are saved to different paths. |
| Hitem3dClient.DownloadedPaths | hitem3d_client.py:117-126 | A path is returned iff it is `out_dir/model.<ext>` for an attempted ext that had a matching link and downloaded. |
| Hitem3dClient.SavedIff | hitem3d_client.py:117-129 | `out_dir/model.<ext>` is returned iff ext was attempted and its own attempt succeeded. |
| Hitem3dClient.DownloadedDistinct | hitem3d_client.py:117-126 | When no format is attempted twice, no path is returned twice. |
| Hitem3dClient.FailureIsolation | hitem3d_client.py:117-129 | Changing whether one format's download fails never changes whether another format's file is returned. |
| Hitem3dClient.DownloadStageResult | hitem3d_client.py:109-129 | Over the raw preferences, the returned paths are distinct. Each is `out_dir/model.<ext>` for a normalised, attempted ext that had a matching link and downloaded, and every such ext gives one. |
| Hitem3dClient.ScenarioSavesStl | hitem3d_client.py:109-129 | With the default formats, no glb link, a failing obj download and a working stl link, exactly `out_dir/model.stl` is returned. |
| Hitem3dClient.ProcessImage | hitem3d_client.py:20-134 | A launch error leaves the function unchanged. After a good launch, an error other than a timeout from a selector's wait escapes with its message. Otherwise a refused upload fails on a candidate selector. Otherwise: if no link appears before the deadline, the function returns an empty list without attempting any download, which includes `wait_minutes <= 0`. If a link does appear, it returns the download stage's result over the normalised effective formats. |
| Deals.Dashboard.constructor | dashboard.py:7-8 | A fresh dashboard has no deals. |
| Deals.Dashboard.AddDeal | dashboard.py:10-12 | The deal is appended at the end, and the earlier deals are unchanged. |
| Deals.Dashboard.Summary | dashboard.py:14-16 | The summary has the single key "total_deals", whose value is the number of recorded deals. It reads the dashboard and changes nothing. |
| Deals.TrackDeals | dashboard.py:7-16 | Starting from a fresh dashboard, n `add_deal` calls give a summary of n. |
| Text.Contains | hitem3d_client.py:39 | The substring test holds iff the text occurs at some position. |
| Text.LowerAt | hitem3d_client.py:39 | Lower-casing maps each character on its own. |

## Left out

- **Playwright.** Launching, contexts, navigation, `wait_for`, `set_input_files`, `eval_on_selector_all`, `expect_download` and `save_as` are browser I/O. They appear only as the oracle fields of `Browser`.
- **Image and browser mode.** `image_path` and `headless` only reach the browser, so they are not parameters of the model.
- **Waiting and the clock.** `time.time()` and `wait_for_timeout(2000)` are replaced by a clock oracle in milliseconds. Its one requirement is that each poll tick lasts at least 2000 ms.
- **The install.** The `subprocess.run` call of `_ensure_browser_deps` keeps only its outcome, success or failure.
- **Creating the output directory.** `mkdir` is not modelled.
- **Path resolution.** `Path.resolve()` is not modelled: a save path is `out_dir + "/model." + ext`.
- **The "Unable to locate file input" raise** (hitem3d_client.py:73-74). It cannot fire: a locator is assigned before each wait, so `file_input` is never falsy after the loop. `SelectUploadControl` shows that a locator always remains for a non-empty candidate list. A failure to attach surfaces later, from `set_input_files`, which the `uploadAccepted` oracle covers.
- **The CSS click selector.** `a[href$=".ext"]` matches case-sensitively. Whether the click, capture and save succeed is folded into the per-format `downloads` oracle.
- **Regex line ends.** The `$` anchor also matches before a final newline, but the pattern is modelled as a plain suffix test.
- **Character coverage.** `lower()` and the `re.I` comparison are modelled for the ASCII letters A-Z only. Python also folds other letters, so for example an href ending in ".É" matches a format "é" in the source but not in the model. `strip()` is modelled for the whitespace characters below U+0100 only.
- **Errors inside the loops.** An exception from `eval_on_selector_all` during the poll loop is not modelled. Neither is one from `new_context`, `new_page` or `goto`. An error from `wait_for` in the selector loop is modelled (`WaitRaised`).
- WaitForLinks: termination and the bound of `wait_minutes`·30 ticks hold only for a clock that never goes back and advances at least 2000 ms per tick. The source reads `time.time()` (lines 80 and 97), a wall clock that can be set back, and not a monotonic clock. If the wall clock is set back, the source's loop can run more ticks than that bound, or longer than `wait_minutes`.
- **Teardown and logging.** `context.close()`, `browser.close()` and all logging are left out. Teardown is skipped on the early return anyway.
- Deals.Dashboard: a deal is a value of a type parameter rather than a `Dict`. Nothing in the class looks inside a deal.
- **Other files.** gemini_utils.py, server.py, app.py, search_automation.py, listing_analysis.py, resale_value.py and negotiations.py are not part of this model. They are network clients, web plumbing, glue and placeholders without logic.
