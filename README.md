# gha-version-inspector, modelled in Dafny

gha-version-inspector scans the GitHub Actions workflow files in a directory. It
counts how often each action reference (`owner/repo@version`, the `uses` of a
step) occurs. For every distinct reference it asks GitHub for the action's
latest release and decides whether the pinned version is outdated, then prints
a table: a header line, one row per outdated reference, or
`No new versions found.` when there is none.

This project models the logic between the I/O calls:

- **`YamlTree`** is the value tree a YAML parser hands the program. It also gives
  the JavaScript property access, `typeof ... === 'object'` and `Object.values`
  the walk performs on that tree.
- **`Usage`** is the counting walk over documents, jobs and steps. It is written
  imperatively, one method per nested `forEach`, over a counter that keeps its
  keys in insertion order. Each method is proved against `Tally`, the same
  counting written as a fold. `TallyMeaning` states what that fold means: each
  distinct reference, in order of first appearance, with its exact number of
  occurrences.
- **`Versions`** is the per-reference decision. It splits on `@`, takes the
  major before the first `.`, applies the rule for a bare pin or for a dotted
  pin, and builds the padded row. It also models the filter that keeps the rows of
  flagged references in key order. The registry is a parameter
  `lookup: string -> Latest`. It yields a release tag, a missing `tag_name`
  (JavaScript `undefined`) or a failed request, which the program reports as
  `"Unknown"`.
- **`Report`** is `main`: the header-width fold, the header line, the print loop
  over the rows and the fallback line. `Run` composes the walk with the report.
- **`JsString`** has the JavaScript string built-ins used: `indexOf`, `split` on
  one character, and `padEnd`.

Behaviour of `index.js` worth noting, which the model reproduces:

- The pinned version is the *second* `@` segment only. `a@b@c` is pinned at `b`,
  and the text after a second `@` is ignored.
- `padEnd` pads on the right and never truncates. An identity longer than 40
  characters pushes the later columns right.
- The key order of the counter decides the order of the rows. In the model it is
  the order of first occurrence.
- The registry is asked once per distinct reference (`owner/repo@version`), so
  two pins of the same action lead to two requests for the same identity.

The header's name column is `longest identity + 2` wide, while rows use a fixed
40. `HeaderAlignment` states that the two line up exactly when the longest
identity is 38 characters long.

## Model

| member | source | states |
|---|---|---|
| JsString.IndexOf | index.js:62-64 | the result is -1 exactly when the character is absent; otherwise it is the position of its first occurrence |
| JsString.BeforeFirst | index.js:54-54 | the result is a separator-free prefix of the input, ending at the first separator or at the end |
| JsString.AfterFirst | index.js:54-54 | the input is the text before the first separator, the separator, then the result |
| JsString.Split | index.js:54-54 | a split has at least one piece and no piece contains the separator |
| JsString.SplitHead | index.js:54-54 | the first piece of a split is the text before the first separator |
| JsString.SplitSecond | index.js:54-54 | a second piece exists exactly when the separator occurs, and it is the text between the first and second separators |
| JsString.JoinSplit | index.js:54-54 | joining the pieces of a split gives back the input |
| JsString.SplitJoin | index.js:54-54 | splitting the join of separator-free pieces gives back the pieces |
| JsString.Spaces | index.js:63-63 | a run of n spaces |
| JsString.PadEnd | index.js:63-65 | the length is the larger of the input length and the target; the input is kept as a prefix; the rest is spaces |
| JsString.Cells | index.js:63-65 | two padded cells then free text: each cell and the text sit at their column and nothing is cut |
| YamlTree.Lookup | index.js:36-40 | a property is absent exactly when no entry has that key; when present, it is the value of an entry with that key |
| YamlTree.LookupFirst | index.js:36-40 | the entry read is the first one with the key: no earlier entry has that key |
| YamlTree.Property | index.js:36-40 | a property is present only on a mapping, where it is the value of an entry with that key, and it is present whenever the mapping has such an entry |
| YamlTree.IsObject | index.js:36-36 | the `typeof ... === 'object'` test, true of `null`, mappings and arrays; a timestamp (a `Date` in js-yaml) is a scalar here, which changes nothing because a `Date` has no values or properties; it has no contract of its own and is used in the contract of `Usage.Jobs` |
| YamlTree.ObjectValues | index.js:37-37 | the values of a mapping in entry order, or the items of an array |
| Usage.Jobs | index.js:36-37 | when a document's `jobs` property is a mapping or an array, its jobs are the `Object.values` of it; when `jobs` is missing or not an object, there are none |
| Usage.Steps | index.js:38-39 | when a job's `steps` property is an array, its steps are that array's items; otherwise there are none |
| Usage.StepUses | index.js:40-41 | a step contributes at most one reference; it contributes `u` when its `uses` property is the string `u`, and nothing otherwise |
| Usage.Walkable | index.js:36-40 | the condition under which the walk does not throw: `jobs` is not `null`, and no job or step it reads a property of is `null`; the requires of `Usage.ReadYamlFiles` and `Report.Run` |
| Usage.StepsUses | index.js:39-43 | the references of a list of steps in array order; it has no contract of its own, `Usage.StepsUsesSnoc` states how it grows by one step and `Usage.CountJob` is proved against it |
| Usage.JobsUses | index.js:37-45 | the references of a list of jobs in `Object.values` order; it has no contract of its own, `Usage.JobsUsesSnoc` states how it grows by one job and `Usage.CountDocument` is proved against it |
| Usage.DocUses | index.js:36-46 | the references of one file: those of its jobs when `jobs` is an object, and none otherwise; `Usage.DocumentWithoutJobsAddsNothing` and `Usage.OneStepWorkflowUses` state cases of it |
| Usage.AllUses | index.js:31-47 | the references of all files in listing order; `Usage.AllUsesAppend` states that it distributes over concatenation and `Usage.ReadYamlFiles` is proved against it |
| Usage.Occurrences | index.js:41-41 | the count is positive exactly when the reference occurs, and is at most the length |
| Usage.FirstOccurrences | index.js:41-41 | the keys are exactly the references seen, each once |
| Usage.FirstOccurrencesOrder | index.js:41-41 | the keys come in order of first occurrence: each key occurs before the first occurrence of any later key |
| Usage.Counted | index.js:41-41 | one increment adds `u` to the keys, raises its count from its old value or from 0 by one, leaves every other count alone, and appends `u` to the key order only when it is new |
| Usage.Tally | index.js:41-41 | the counter after counting a sequence string by string; it has no contract of its own, and `Usage.TallyMeaning` states what it holds |
| Usage.TallyStep | index.js:41-41 | one increment keeps keys, key order and counts faithful to the references seen |
| Usage.TallyMeaning | index.js:41-41 | counting one by one yields each distinct reference in order of first occurrence, with its number of occurrences |
| Usage.CountStep | index.js:39-43 | a step adds its `uses` to the count when that is a string, and adds nothing otherwise |
| Usage.CountJob | index.js:37-45 | a job adds the `uses` of every step, in order, when its `steps` is an array, and adds nothing otherwise |
| Usage.CountDocument | index.js:36-46 | a document adds the uses of every job of an object (or array) `jobs`, and adds nothing otherwise |
| Usage.ReadYamlFiles | index.js:25-49 | after the walk the keys are the distinct references in order of first occurrence, and each count is the number of steps using that reference |
| Usage.AllUsesAppend | index.js:31-47 | the references of a concatenation of files are the references of each part, in order |
| Usage.OccurrencesAppend | index.js:41-41 | occurrence counts add up over a concatenation |
| Usage.CountOverBatches | index.js:31-47 | the count of a reference over two batches of files is the sum of its counts per batch |
| Usage.FirstOccurrencesSnocKnown | index.js:41-41 | counting a key already present adds no key |
| Usage.FirstOccurrencesKnown | index.js:41-41 | counting only references already seen leaves the key order unchanged |
| Usage.RepeatsAddNoKey | index.js:31-47 | a file that only repeats references already counted adds no key |
| Usage.DocumentWithoutJobsAddsNothing | index.js:36-36 | a file whose `jobs` is missing or not an object adds no reference |
| Usage.OneStepWorkflowUses | index.js:36-43 | a workflow with one job and one step with a string `uses` contributes exactly that reference |
| Usage.TwoDocumentsUses | index.js:31-47 | any two files contribute the references of the first, then those of the second |
| Usage.SameReferenceInTwoFiles | index.js:31-47 | two one-step files using the same reference, whatever their job names, count it twice under one key |
| Versions.LatestValue | index.js:17-20 | the latest version is undefined exactly when the release has no tag, is the tag name when there is one, and is "Unknown" after a failed lookup |
| Versions.Truthy | index.js:58-64 | JavaScript truthiness of a string or `undefined`: false for `undefined` and the empty string; used by `Versions.MajorOf` and `Versions.BarePinRule` |
| Versions.Text | index.js:63-65 | how the template literal renders the latest version: the string itself, or "undefined"; `Versions.MissingTagRow` and `Versions.FailedLookupRow` state the rows it yields |
| Versions.MajorOf | index.js:58-59 | the major is present exactly when the version is a non-empty string, and is its text before the first `.` |
| Versions.Row | index.js:63-65 | the row template; it has no contract of its own, and `Versions.RowColumns` states its column layout |
| Versions.Identity | index.js:54-54 | the identity is the `@`-free prefix of the reference that ends at the first `@` or at the end, and it is the whole reference exactly when there is no `@` |
| Versions.Pinned | index.js:54-54 | the pin is absent exactly when there is no `@`; otherwise the reference starts with the identity, `@`, then the pin, and the pin is `@`-free and ends at the second `@` or at the end |
| Versions.Compare | index.js:53-68 | the per-reference callback; it has no contract of its own, and `Versions.BarePinRule`, `Versions.DottedPinRule`, `Versions.NoPinNoRow` and `Versions.RowLayout` state when it flags a reference and what row it returns |
| Versions.ComparePieces | index.js:54-54 | the destructured pieces of a reference are its identity and its pinned version |
| Versions.BarePinRule | index.js:58-63 | a non-empty pin without `.` is flagged exactly when the latest version is empty or undefined, or its major differs from the pin |
| Versions.DottedPinRule | index.js:64-65 | a pin with a `.` is flagged exactly when it differs from the whole latest version |
| Versions.NoPinNoRow | index.js:54-67 | a reference with no `@`, or nothing after it, is never flagged |
| Versions.FlaggedRow | index.js:62-66 | a flagged reference has a pin, and its row is built from its identity, its pin and the latest version |
| Versions.RowColumns | index.js:63-63 | row layout: identity padded to max(len, 40), pin padded to max(len, 20), then the latest text verbatim |
| Versions.RowLayout | index.js:62-66 | the row of a flagged reference has that column layout |
| Versions.RowIsTruthy | index.js:71-71 | a row has at least 60 characters, so the filter never drops one |
| Versions.FailedLookupRow | index.js:18-21 | after a failed lookup, a reference with a non-empty pin is flagged unless the pin is literally "Unknown", and its row ends with "Unknown" |
| Versions.MissingTagRow | index.js:17-17 | when the release has no tag, every reference with a non-empty pin is flagged and its row ends with "undefined" |
| Versions.CompareByPieces | index.js:54-54 | the outcome for a reference depends only on its identity and its pin |
| Versions.AtPieces | index.js:54-54 | `id@pin@rest` has identity `id` and pin `pin` |
| Versions.Unsplit | index.js:54-54 | the first `@` of `a@b` is the one after `a` when `a` has none |
| Versions.ThirdSegmentIgnored | index.js:54-54 | references differing only after a second `@` get the same outcome |
| Versions.Results | index.js:53-70 | one result slot per key |
| Versions.Present | index.js:71-71 | the filter keeps at most as many rows as there are results; `Versions.PresentInOrder` states which rows, in which order |
| Versions.CompareVersions | index.js:70-71 | at most one row per key; `Versions.RowsInKeyOrder` states exactly which rows, in which order |
| Versions.FlaggedPositions | index.js:71-71 | the positions of the rows kept are in range, flagged, all of the flagged ones, and increasing |
| Versions.PresentInOrder | index.js:71-71 | the j-th kept row is the j-th non-null result |
| Versions.RowsInKeyOrder | index.js:53-71 | there is exactly one row per flagged key, in key order, and it is that key's row |
| Report.LongestIdentity | index.js:79-79 | the header-width fold; it has no contract of its own, and `Report.LongestIdentityIsMax` states what it computes |
| Report.LongestIdentityIsMax | index.js:79-79 | the fold is an upper bound on every identity length, is 0 with no keys, and is reached by some key |
| Report.Header | index.js:81-81 | the header template; it has no contract of its own, and `Report.HeaderColumns` states its column layout |
| Report.Column | index.js:81-81 | the column where the header puts "Current Version": the larger of 4 and the longest identity plus 2; used by `Report.HeaderColumns` and `Report.HeaderAlignment` |
| Report.HeaderColumns | index.js:81-81 | header layout: "Current Version" at column max(longest + 2, 4), "New Version" 20 columns later |
| Report.HeaderAlignment | index.js:81-81 | the header's version column is column 40, as in the rows, exactly when the longest identity has 38 characters |
| Report.NoRowIsFallback | index.js:85-89 | no row equals the fallback line |
| Report.Lines | index.js:85-89 | the lines printed from a header and the rows; it has no contract of its own, and `Report.LinesShape` states their shape |
| Report.Report | index.js:79-89 | the whole report for a key order and a registry; it has no contract of its own, and `Report.LinesShape` and `Report.ReportFallback` state that it is the header, then the rows of `Versions.CompareVersions` or the fallback line |
| Report.LinesShape | index.js:85-89 | the output is the header followed by the rows in order, or by the fallback line when there are none |
| Report.ReportFallback | index.js:85-89 | the fallback line is printed exactly when no reference is flagged |
| Report.RepeatsLeaveReport | index.js:76-83 | how often a reference is used does not affect the report |
| Report.PrintReport | index.js:79-89 | prints the header, then each row in turn or the fallback line: the lines of the report |
| Report.Run | index.js:75-90 | the printed lines are the report for the distinct references, taken in order of first occurrence |

## Left out

- Reading the directory, filtering `.yml`/`.yaml` names and reading files are file-system I/O. The input is a sequence of already-parsed documents in listing order.
- `yaml.load` is a foreign parser. Its output is taken as a `Yaml` tree. A parse error aborts the program; no such case is modelled.
- js-yaml rejects documents with duplicate mapping keys. The tree may have them; property access then takes the first entry.
- `getLatestVersion` is the HTTP request, the `GITHUB_TOKEN` header, JSON decoding and the error log. It is the `lookup` parameter, which yields a tag, a missing tag or a failure.
- A `tag_name` that is present but not a string (null, a number) is not modelled: `Latest` carries strings only.
- `Promise.all` concurrency is not modelled. The results are collected in key order, so the callbacks are evaluated one after another. A lookup that never returns is not modelled.
- `console.log` and `console.error` are not modelled: the report is returned as a list of lines.
- Usage.ReadYamlFiles: requires every document to be walkable. A `jobs` that is `null`, or a `null` job or step, makes the program throw, and those inputs are excluded rather than modelled as a crash.
- Report.Run: same requirement as `Usage.ReadYamlFiles`, for the same reason.
- Usage.ReadYamlFiles: keeps the keys in insertion order. JavaScript lists integer-like keys (such as `"1"`) first, in numeric order, and the model does not reproduce that.
- Usage.ReadYamlFiles: treats every `uses` string as its own key. Keys inherited from `Object.prototype` (such as `"constructor"` or `"__proto__"`) make `counts[uses] || 0` read the inherited value, and the model does not reproduce that.
- Usage.Jobs: for a `jobs` mapping whose names are integer-like, `Object.values` yields those jobs first. The model keeps document order.
- String lengths are counted in Dafny characters, not UTF-16 code units, so the padding under astral-plane characters differs.
- Versions.CompareByPieces, Versions.ThirdSegmentIgnored: both compare two references against one `lookup` function, so they take the registry to answer the same for every request of a run. The program sends a separate request per distinct reference, and two of them could get different answers.
- Running the comparison twice on the same count gives the same rows. Every lookup here is a pure function, so no separate idempotence lemma is stated.
