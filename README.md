# File viewer dispatch, modelled in Dafny

A browser extension script (`fileViewer.js`) that overrides
`HTMLAnchorElement.prototype.click`. Before a download link's native click
runs, it asks a registry of handler descriptors whether one of them wants to
show the file in a new window instead. The script registers three descriptors:
PDF, CSV and JSON. Each one checks the suggested file name (`download`)
for its suffix, ignoring case. The native click runs only when no descriptor
both accepts the link and reports success.

The model has five modules:

- `Wrappers`: `Option`, used for JavaScript properties that may be absent.
- `Anchors`: the anchor (`download`, `href`), plus ASCII `toLowerCase` and
  `endsWith`, the two string operations the predicates use.
- `Registry`: handler descriptors and candidates for `register`. It holds the
  `FileHandlerRegistry` class, whose `handlers` field `Register` appends to
  and whose `Process` loop scans it. `Process` is proved equal to the
  specification functions `Dispatch` and `Calls`. `Dispatch` is the outcome.
  `Calls` lists the handlers whose `handle` was invoked, in order. Lemmas
  cover what `Dispatch` and `Calls` mean.
- `BuiltinHandlers`: the three built-in predicates and `handle` functions. Each
  `handle` returns its boolean and the list of effects it asks of the browser
  (`window.open`, and for CSV, fetch-then-view). The registration sequence run
  at load time is here too, with lemmas about the resulting handler list.
- `Interceptor`: the page after loading. Its `Click` is the overridden click;
  a ghost log records every call to the captured native click.

A blocked popup never brings the native download back. The CSV `handle`
returns `true` whenever `href` is non-empty, whether or not `window.open`
returned a window (fileViewer.js:56-65). The JSON `handle` keeps the window it
gets back but never reads it (fileViewer.js:78-79). The model states this
outright (`Interceptor.CsvIsViewed`, `BuiltinHandlers.BuiltinDispatch`).

## Model

| member | source | states |
|---|---|---|
| `Registry.Validate` | fileViewer.js:10-17 | a candidate is accepted exactly when it is an object whose `shouldHandle` and `handle` are both functions; the stored descriptor carries the candidate's label and capabilities as they are at registration |
| `Registry.FileHandlerRegistry.constructor` | fileViewer.js:5-7 | a new registry holds no handlers |
| `Registry.FileHandlerRegistry.Register` | fileViewer.js:9-19 | a rejected candidate leaves `handlers` unchanged; an accepted one adds exactly one entry, last, and leaves every earlier entry where it was |
| `Registry.AfterRegister` | fileViewer.js:9-19 | defines the handler list after one `register` call: unchanged when `Validate` rejects, the validated descriptor appended otherwise |
| `Registry.RegisterAll` | fileViewer.js:9-19 | defines the handler list after a series of `register` calls, made one after the other |
| `Registry.RegisterAllAppends` | fileViewer.js:9-19 | any series of registrations keeps the earlier list as a prefix and then adds the valid candidates' descriptors in registration order |
| `Registry.DispatchFrom` | fileViewer.js:21-30 | a scan from index i succeeds exactly when some handler at or after i both accepts the anchor and reports success |
| `Registry.Dispatch` | fileViewer.js:21-30 | `process` returns true exactly when some handler both accepts the anchor and reports success |
| `Registry.FileHandlerRegistry.Process` | fileViewer.js:21-30 | the loop returns the `Dispatch` outcome and invokes `handle` on exactly the handlers `Calls` lists |
| `Registry.CallsFrom` | fileViewer.js:22-29 | defines the indices whose `handle` a scan from index i invokes: a handler whose predicate accepts is called; the scan stops at its first success and moves on after a failure or a rejection |
| `Registry.Calls` | fileViewer.js:21-30 | defines the indices whose `handle` `process` invokes: the scan from index 0 |
| `Registry.CallsFromSpec` | fileViewer.js:22-29 | from index i, `handle` runs in increasing index order, only on handlers whose predicate accepts, on exactly those before the first success; every call but the last failed, and the scan succeeds exactly when the last call succeeded |
| `Registry.CallsSpec` | fileViewer.js:22-29 | the same for the whole `process`: `handle` never runs on a rejecting handler, and never runs after the first success |
| `Registry.ContinuePastFailure` | fileViewer.js:23-29 | an earlier matching handler that fails is still tried, the first later success is the last handler tried, and `process` returns true |
| `Registry.NoMatchNoCalls` | fileViewer.js:23-29 | when no predicate accepts the anchor, no `handle` runs and `process` returns false |
| `Registry.DispatchAppend` | fileViewer.js:18-30 | appending a handler changes the outcome only for anchors every earlier handler failed; the new handler is tried only then and only if its predicate accepts |
| `Registry.CallsFromAppend` | fileViewer.js:18-30 | the same statement about the invoked handlers, for a scan starting at any index |
| `Anchors.LowerChar` | fileViewer.js:37 | case folding yields no upper-case ASCII letter, changes a character exactly when it is one, and maps each upper-case letter to the lower-case letter at the same place in the alphabet |
| `Anchors.ToLowerAscii` | fileViewer.js:37 | `toLowerCase` keeps the length and folds each character on its own |
| `Anchors.ToLowerAsciiIdempotent` | fileViewer.js:37 | folding a folded name changes nothing |
| `Anchors.HasDownloadName` | fileViewer.js:37 | defines the truthiness of `anchor.download`: present and not the empty string |
| `Anchors.EndsWith` | fileViewer.js:37 | defines `endsWith`: the string's last `|suffix|` characters are `suffix` |
| `Anchors.DownloadEndsWith` | fileViewer.js:37 | defines the shared predicate shape `anchor.download && anchor.download.toLowerCase().endsWith(ext)` |
| `Anchors.EndsWithIffConcat` | fileViewer.js:37 | `endsWith(suffix)` holds exactly when the string is some prefix followed by `suffix` |
| `Anchors.EndsWithLowerIff` | fileViewer.js:37 | the folded name ends with `ext` exactly when its last `|ext|` characters, each folded, spell `ext` |
| `Anchors.DownloadEndsWithIff` | fileViewer.js:37 | a predicate accepts exactly those anchors with a non-empty `download` whose case-folded tail spells the extension; an absent or empty name is never accepted |
| `Anchors.CaseFoldedExtensionMatches` | fileViewer.js:37 | any name whose extension folds to the lower-case one is accepted, whatever its stem (`REPORT.PDF` ends with `.pdf`) |
| `BuiltinHandlers.IsPdf` | fileViewer.js:37 | defines the PDF predicate: the suffix test with `.pdf` |
| `BuiltinHandlers.IsCsv` | fileViewer.js:51 | defines the CSV predicate: the suffix test with `.csv` |
| `BuiltinHandlers.IsJson` | fileViewer.js:73 | defines the JSON predicate: the suffix test with `.json` |
| `BuiltinHandlers.OpenDirectlyHandle` | fileViewer.js:38-46 | the PDF `handle`, which the JSON descriptor (lines 74-82) shares: reports success exactly when `href` is non-empty, and then opens `href` in a new window; otherwise does nothing |
| `BuiltinHandlers.CsvHandle` | fileViewer.js:52-68 | reports success exactly when `href` is non-empty, whatever `window.open` returns; then opens an empty window first; with a window it also fetches `href` for the viewer, passing the file name as it reads at the click; without one it requests nothing more |
| `BuiltinHandlers.PdfCandidate` | fileViewer.js:35-47 | the PDF object passes `register`'s checks, is labelled `PDF`, tests for `.pdf`, and its `handle` succeeds exactly when `href` is non-empty |
| `BuiltinHandlers.CsvCandidate` | fileViewer.js:49-69 | the CSV object passes `register`'s checks, is labelled `CSV`, tests for `.csv`, and its `handle` succeeds exactly when `href` is non-empty, whatever the popup policy |
| `BuiltinHandlers.JsonCandidate` | fileViewer.js:71-83 | the JSON object passes `register`'s checks, is labelled `JSON`, tests for `.json`, and its `handle` succeeds exactly when `href` is non-empty |
| `BuiltinHandlers.Builtins` | fileViewer.js:33-83 | defines the handler list at load time: the three objects registered in source order into a new registry |
| `BuiltinHandlers.BuiltinsUnfold` | fileViewer.js:35-83 | the loaded handler list is the result of the three `register` calls, PDF then CSV then JSON |
| `BuiltinHandlers.BuiltinsInOrder` | fileViewer.js:35-83 | all three registrations are accepted, in order; each predicate is its suffix test and each `handle` succeeds exactly when `href` is non-empty |
| `BuiltinHandlers.LastCharOfMatch` | fileViewer.js:37 | an accepted name's last character folds to the extension's last character |
| `BuiltinHandlers.LastCharMismatch` | fileViewer.js:37 | a name whose last character does not fold to the extension's last character is rejected |
| `BuiltinHandlers.BuiltinPredicatesExclusive` | fileViewer.js:35-83 | no anchor is accepted by two of the PDF, CSV and JSON predicates |
| `BuiltinHandlers.BuiltinCalls` | fileViewer.js:35-83 | with the built-in handlers, `process` invokes at most one `handle`: that of the one descriptor whose suffix the name has |
| `BuiltinHandlers.BuiltinDispatch` | fileViewer.js:35-83 | with the built-in handlers, `process` succeeds exactly when `href` is non-empty and the name ends with `.pdf`, `.csv` or `.json` in any case, whatever the popup policy |
| `Interceptor.NativeClickRuns` | fileViewer.js:85-90 | the native click runs exactly when no handler both accepts the anchor and reports success |
| `Interceptor.Page.Load` | fileViewer.js:1-90 | loading creates the registry, registers the three descriptors before any click, and no native click has run yet |
| `Interceptor.Page.Click` | fileViewer.js:85-90 | the overridden click calls the captured native click once, with the same anchor, exactly when `process` fails, and never when it succeeds |
| `Interceptor.BuiltinNativeClick` | fileViewer.js:35-90 | once loaded, the native download runs exactly when `href` is empty or the name has none of the three suffixes |
| `Interceptor.ArchiveZipFallsBack` | fileViewer.js:35-90 | `archive.zip` invokes no `handle`, and the native download runs |
| `Interceptor.UpperCasePdfIsViewed` | fileViewer.js:35-90 | `REPORT.PDF` with a non-empty `href` is handled by the PDF descriptor alone, opens `href`, and the native download does not run |
| `Interceptor.CsvIsViewed` | fileViewer.js:52-90 | `data.csv` is handled without the native download; with a window, its text goes to the viewer under the name `data.csv` as read at the click; with the popup blocked, only the empty window is requested and the native download still does not run |

## Left out

- `window.open`: modelled as the host's answer (`PopupPolicy`, a function of the anchor) and as `OpenWindow` effects. Whether two calls for the same anchor could get different answers is not modelled.
- `fetch`, the promise chain and `CsvTools.view`: modelled as one `FetchAndViewCsv` effect that the CSV handler requests. The asynchronous outcome (the text arriving, a parse error) is not modelled; neither can change what `handle` returns.
- Registered handlers are held as values: `Registry.Handler` copies the two capabilities at registration. In the code, `register` pushes the caller's own object (fileViewer.js:18), and `process` reads `shouldHandle` and `handle` from it on every call (fileViewer.js:23-24). So a later assignment to a registered object's properties changes dispatch, or makes `process` throw. The model does not capture this aliasing. "Fully capable" holds of each descriptor at the moment it is registered, not afterwards.
- The CSV viewer reads `anchor.download` only when the fetch resolves (fileViewer.js:60-61). The model's `FetchAndViewCsv` records the name as it reads at the click, so a name changed between the click and the fetch's completion is not modelled.
- `console.error` and `console.debug` logging, and the `_NAME` label in messages: diagnostics only.
- Prototype patching: `originalClick.apply(this, arguments)` is modelled as one entry, the anchor itself, in the ghost `nativeClicks` log. The native click's return value is not modelled.
- Handlers are pure functions from the anchor to a boolean. A third-party handler with side effects, one that throws, or one that registers further handlers during `process` is not modelled; the code isolates none of these.
- `shouldHandle` results are booleans. The JavaScript truthiness of other return values is covered only for the built-ins, whose `""` and `undefined` results are falsy.
- `toLowerCase` is modelled for ASCII letters only; full Unicode case mapping is not modelled.
- A guard against installing the override twice: the code has none, so the model has none.
