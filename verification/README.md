# takeout-tool matching engine, in Dafny

takeout-tool reorganises a Google Photos Takeout export. Each photo or video
in the export comes with a JSON "sidecar" whose `title` field holds the media
file's original name. The export mangles that name on disk: it replaces
illegal characters, cuts the name to 51 characters, drops the extension, or
moves a duplicate index `(n)` from the media file onto the sidecar. The
matching engine rebuilds the pairing. This project models that engine and
proves properties of the model.

The model covers both revisions of the engine.

**The `Photos` class (`src/photos.js`):**

- The breadth-first scan of the export tree sorts each path into media
  files, sidecars, or ignored catalog files (module `Scanner`).
- The file-name derivation `matchJson` applies in order: sanitise, parse,
  recover a missing extension by probing `.jpg`, `.png`, `.gif` and `.jpeg`,
  truncate to 51 characters, then re-insert the duplicate index (module
  `Normalizer`).
- The per-sidecar matcher uses the custom-name table and `addMatch`, where
  the first claim wins (module `Matcher`). The three maps it fills, and
  their invariant, are in module `Store`.
- The second pass `checkForUnmachedFiles` tries five heuristics in a fixed
  order to attach unmatched media files as extra files of an already
  matched file (module `Reconciler`).
- The three CSV reports and what reading them back yields (module
  `Report`).
- The whole constructor run, including the crash that a non-string title
  causes (module `Photos`).

**The older script (`index.js`):** it has the same scan with a shorter
ignore list and a single-digit-only duplicate index, and it only looks up the
raw title (module `Legacy`). Lemmas there contrast the two revisions and show
where they agree.

**Supporting modules:**

- `JsText` gives the JavaScript string primitives with their ECMAScript
  semantics: `substring`, `slice`, `replaceAll`, `endsWith`, `includes`, and
  the three regular expressions.
- `Paths` gives the parts of Node's POSIX `path` module that the engine
  uses.
- `JsCollections` gives the insertion order of JavaScript `Set` and `Map`.
- `Optional` gives an option type.

**How the environment is represented:**

- The file system is a tree of directory listings (`Scanner.Entry`).
- Each sidecar's content is reduced to what the matcher can observe
  (`Matcher.JsonContent`): unreadable, title not a string, or a string title.
- The two custom tables of `config/photos.js` are parameters.

**Edge cases the model reproduces from the code:**

- In `src/photos.js`, a sidecar whose `title` is missing or not a string
  makes `replaceAll` throw at line 117, which is outside the `try`. That
  stops the whole run before any report is written (`MatchOutcome.TitleCrash`,
  `Photos.RunResult.Crashed`). It is not treated as a per-sidecar parse
  error.
- A sidecar that cannot be read is caught by the same `try` as a parse
  error (lines 107-114), so it is logged as a JSON error and the run
  continues.
- `tryToAddExtraFile` does not check whether the extra file already has an
  owner. Only the `has` test at line 198 of the second pass protects the
  store's invariant, which is why `Store.TryAddExtra` keeps the invariant
  only for an unowned file.
- In `index.js` the same bad title makes `path.join` throw inside the
  `try`, so it is only logged (`Legacy.MissingTitleContrast`).

## Model

| member | source | states |
|---|---|---|
| JsText.SubstringTo | src/photos.js:154 | `substring(0, end)` clamps the end into range: a non-positive end gives the empty string, an end past the string gives all of it, and the result is always a prefix of the input |
| JsText.SliceTo | src/photos.js:240 | `slice(0, end)` counts a negative end back from the string's end and clamps it at 0; the result is a prefix of the input of the stated length |
| JsText.RemoveAll | src/photos.js:214 | `replaceAll(p, '')` never lengthens the string and changes it exactly when the string includes `p` |
| JsText.RemoveAllSplits | src/photos.js:214 | `replaceAll(p, '')` equals `split(p).join('')`: every occurrence the left-to-right, non-overlapping search finds is removed |
| JsText.RemoveOnce | src/photos.js:214 | for a pattern whose first character does not recur in it, removing it from between two parts that do not include it leaves exactly the two parts joined |
| JsText.RemoveAllSinglePass | src/photos.js:214 | text brought together by a removal is not searched again: `-edi-editedted` loses one `-edited` and still includes one |
| JsText.StripSuffix | src/photos.js:209 | the end-anchored `\.MP4$` / `\.jpg$` replacement removes exactly one trailing occurrence and nothing else |
| JsText.Sanitise | src/photos.js:117 | every illegal character `\ / : * ? " < > \| % &` becomes `_`, every other character is kept in place, and the length is unchanged |
| JsText.SanitiseIdempotent | src/photos.js:117 | sanitised text holds no illegal character, so sanitising twice equals sanitising once |
| JsText.SanitiseClean | src/photos.js:117 | a title without illegal characters comes back unchanged |
| JsText.TrailingIndex | src/photos.js:161 | `match(/\(\d+\)$/)` returns an index `(digits)` that ends the string, and it is the only index ending the string |
| JsText.TrailingDigitIndex | index.js:163 | `match(/\(\d\)$/)` returns a three-character index ending the string exactly when one ends it |
| JsText.WithoutIndex | src/photos.js:250 | dropping the trailing index leaves the text that, followed by the index, is the input; without an index the input is unchanged |
| JsText.SingleDigitIndexAgrees | index.js:9 | whatever the single-digit expression matches, the multi-digit one matches with the same text |
| JsText.TwoDigitIndexMissedBySingleDigit | index.js:9 | `(12)` is found by the multi-digit expression and missed by the single-digit one |
| JsText.IndexEndsWithParen | src/photos.js:160-161 | any index match ends in `)`, so the `endsWith(')')` test before matching never changes the result |
| Paths.Basename | src/photos.js:63 | `path.basename` has no separator, ends the path, and is the whole path when there is no separator |
| Paths.JoinSplits | src/photos.js:170 | joining a separator-free name onto a directory and taking `basename`/`dirname` gives back the name and the directory |
| Paths.SplitJoins | src/photos.js:202-203 | a path with a directory part is the join of its `dirname` and `basename` |
| Paths.JoinInjective | src/photos.js:170 | two joins with separator-free names are equal only when directories and names are equal |
| Paths.ExtOf | src/photos.js:119 | `path.parse().ext` starts at the last `.` (not at position 0, not for `..`), holds no other `.`, and is empty only when no such `.` exists |
| Paths.StemOf | src/photos.js:120 | `path.parse().name` followed by `path.parse().ext` is the base name |
| Paths.ParseRecombines | src/photos.js:119-120 | for a separator-free title, parsed name plus parsed extension is the title |
| Paths.SplitAtExt | src/photos.js:119-120 | a stem followed by a `.`-led extension with no further `.` parses back into exactly that stem and extension |
| Paths.BasenameWithout | index.js:161 | `path.basename(p, '.json')` is a prefix of the base name that, followed by the suffix, is the base name when the suffix ends it, and is the whole base name otherwise |
| Paths.JsonExt | src/photos.js:88 | a base name ending in `.json` has extension `.json`, except `.json` itself, which has none |
| Paths.JsonBasenamesAgree | index.js:161 | for a sidecar path, `path.parse(p).name` (newer revision) and `path.basename(p, '.json')` (older revision) agree |
| JsCollections.SetAdd | src/photos.js:59 | `Set.add` keeps the earlier elements in order, adds the new one once, and never creates a repeat |
| JsCollections.OrderedMap.Set | src/photos.js:188-189 | `Map.set` stores the new value; a new key goes last in the iteration order and an existing key keeps its place |
| Scanner.Place | src/photos.js:58-67 | a path without `.json` is a media file; a `.json` path is ignored exactly when its base name is listed, and is a sidecar otherwise |
| Scanner.Scan | src/photos.js:38-72 | neither set repeats a path, no media file ends in `.json`, and every sidecar ends in `.json` with a base name outside the ignore list |
| Scanner.ScanFinds | src/photos.js:38-72 | the set the scan builds for each placement is exactly the set of tree paths placed there |
| Scanner.ScanPartitions | src/photos.js:38-72 | the media files are exactly the tree's non-`.json` paths and the sidecars exactly its non-ignored `.json` paths, with no repeats, the two disjoint |
| Store.EmptyStore | src/photos.js:25-27 | the three maps start empty and the invariant holds |
| Store.AddMatch | src/photos.js:180-190 | a file that already has an owner leaves the store unchanged, so the first claim wins; otherwise both directions are set, the extras are untouched, and the invariant is kept for a sidecar not yet matched |
| Store.TryAddExtra | src/photos.js:264-280 | the call fails, changing nothing, exactly when the main file has no owner; otherwise the file goes last in the owner's extra list and maps to the owner, nothing else changes, and the invariant is kept for an unowned file |
| Store.ExtraKeepsValid | src/photos.js:271-278 | attaching an unowned file to a matched sidecar keeps the whole invariant |
| Store.OwnershipExclusive | src/photos.js:25-27 | under the invariant every media file is exactly one of: its owner's primary file, one of its owner's extras, or unowned |
| Store.SecondClaimRejected | src/photos.js:181-187 | a second sidecar claiming an already-claimed file keeps the first association |
| Store.PrimaryInjective | src/photos.js:188-189 | no two sidecars share a primary file |
| Normalizer.Hits | src/photos.js:126-141 | the probe hits, in probing order, are exactly the probe extensions whose file exists, without repeats |
| Normalizer.RecoverExtension | src/photos.js:122-150 | exactly one existing probe is adopted as the extension; none leaves the extension empty; two or more make the name ambiguous |
| Normalizer.DuplicateSuffix | src/photos.js:158-167 | the sidecar's duplicate index is found exactly when an index ends its name, and it is that index |
| Normalizer.HandleMissingExt | src/photos.js:122-150 | an existing extension is kept; without one, a unique probe is adopted, no probe keeps the name, and several abort the sidecar |
| Normalizer.HandleLimit | src/photos.js:152-156 | a name within 51 characters is kept; a longer one keeps its extension behind a prefix of its stem, 51 characters in all when the extension fits, and an extension longer than 51 leaves an empty stem |
| Normalizer.HandleSuffix | src/photos.js:158-167 | without an index on the sidecar the name is unchanged; with one, the index goes between the stem and the extension |
| Normalizer.FromSanitised | src/photos.js:119-167 | from the sanitised title on, derivation fails exactly when the title has no extension and two or more probe extensions exist |
| Normalizer.DeriveFileName | src/photos.js:116-167 | derivation fails exactly when the sanitised title has no extension and two or more probe extensions exist |
| Normalizer.TruncationLaw | src/photos.js:152-167 | the derived name is a prefix of the stem, then the index, then the chosen extension; the whole stem when stem and extension fit in 51 characters, otherwise cut so prefix plus extension is 51 |
| Normalizer.LimitThenSuffixTruncates | src/photos.js:152-167 | steps 4 and 5 on any stem and extension give a name that satisfies the truncation law |
| Normalizer.FromSanitisedLaw | src/photos.js:119-167 | for a separator-free title, truncation and the index act on the title's stem and the extension step 3 settles on |
| Normalizer.SanitiseComesFirst | src/photos.js:116-117 | a title and its sanitised form derive the same name |
| Normalizer.CleanTitleIsKept | src/photos.js:116-167 | a clean title with an extension, at most 51 characters long, on a sidecar without an index derives the title itself |
| Normalizer.LongCleanTitle | src/photos.js:152-167 | a clean title longer than 51 characters keeps its extension and the first 51-minus-extension characters of its stem, with the index in between |
| Normalizer.TruncateBeforeSuffix | src/photos.js:152-167 | a 50-character stem with `.mp4` on a `(1)` sidecar derives the 47-character prefix, `(1)` and `.mp4`; cutting after appending the index would have lost it |
| Matcher.Claim | src/photos.js:169-177 | a missing file is reported missing, an owned one is a duplicate, and an unowned media file is matched through `addMatch` |
| Matcher.MatchTitled | src/photos.js:116-177 | with a string title the outcome settles the store and is never a crash or a JSON error |
| Matcher.MatchJson | src/photos.js:86-178 | only a match changes the store; a crash happens exactly for a non-custom sidecar whose title is not a string, and a JSON error exactly for a non-custom unreadable one; a custom-table hit claims only the file the table names in the sidecar's directory, and reports it missing exactly when it is not a media file |
| Matcher.CustomIgnoresContent | src/photos.js:91-102 | a custom-table hit never reads the sidecar; it ends matched or duplicate on the mapped name in the sidecar's directory, or missing exactly when that path is not a media file |
| Matcher.TitledMatchesDerived | src/photos.js:104-177 | away from the custom table, a string title claims exactly the derived file in the sidecar's directory; an ambiguous derivation is the ambiguous outcome |
| Matcher.MatchAll | src/photos.js:74-84 | one outcome per sidecar in scan order unless a crash stops the pass; a crash can only be the last outcome |
| Matcher.MatchAllKeepsValid | src/photos.js:78-81 | the store invariant survives the pass over distinct, unmatched sidecars |
| Matcher.StepRecords | src/photos.js:180-190 | one sidecar is matched exactly when its outcome is `Matched`, to that outcome's file, and no other match or owner changes |
| Matcher.MatchAllOutcomes | src/photos.js:78-81 | after the pass each processed sidecar is matched exactly when its own outcome was `Matched` |
| Matcher.MatchAllMatchedTo | src/photos.js:78-81 | a sidecar whose outcome was `Matched(f)` maps to `f` after the pass |
| Matcher.MatchAllKeeps | src/photos.js:78-81 | the pass keeps earlier matches and owners, and every new owned file is a media file |
| Matcher.MatchAllOnlyProcessed | src/photos.js:78-81 | only earlier sidecars and the processed prefix of the list are matched after the pass |
| Reconciler.CandidateProposes | src/photos.js:200-252 | each heuristic proposes a main file exactly when its guard holds. The custom rule proposes the table's name in the file's directory. The motion rule replaces one trailing `.MP4` by `.jpg`, or appends `.jpg`. The edited rule removes every `-edited` that `split` finds. The live-photo rule proposes the still `LiveStillName` names, in the video's directory. The original rule removes the index that ends the stem before `.jpg`, and proposes the file itself when there is none |
| Reconciler.LiveStillName | src/photos.js:223-243 | the video's name is kept when it and `.jpg` fit in 51 characters, and is otherwise cut to its first 47 characters. An index ending the stem of that name then moves behind its extension, and `.jpg` follows. The result has no separator, fits in 51 characters, and is exactly 51 long when cut |
| Reconciler.CutForStill | src/photos.js:228-234 | the video name is kept when name plus `.jpg` fits, and is otherwise its first 47 characters |
| Reconciler.IndexBehindExt | src/photos.js:236-242 | a trailing index on the stem moves behind the extension; the characters are only rearranged |
| Reconciler.LivePhotoMain | src/photos.js:218-244 | the live-photo proposal stays in the video's directory under the name `LiveStillName` gives, of at most 51 characters, and is the video path plus `.jpg` for a short unindexed name |
| Reconciler.TryRules | src/photos.js:200-252 | the outcome names the first heuristic whose proposal is owned, attaching through `tryToAddExtraFile`; with none the store is unchanged |
| Reconciler.ReconcileFile | src/photos.js:196-258 | an owned file is skipped; only the visited file can gain an owner, sidecar matches never change, and the invariant is kept |
| Reconciler.ReconcileAll | src/photos.js:192-262 | one outcome per media file; sidecar matches never change and the invariant is kept |
| Reconciler.FirstSuccessWins | src/photos.js:200-252 | a file stays unmatched exactly when no heuristic succeeds, and the attaching heuristic precedes every other one that would succeed |
| Reconciler.FirstSuccessIs | src/photos.js:200-252 | an unowned file whose first succeeding heuristic is at position `i` is attached through that heuristic's proposal |
| Reconciler.ReconcileAllClassifies | src/photos.js:196-259 | after the pass each media file has an owner exactly when its outcome is not `Unmatched` |
| Reconciler.ReconcileAllOnlyAttaches | src/photos.js:196-259 | the pass removes no owner and gives owners only to the files it visits |
| Reconciler.MotionCandidate | src/photos.js:207-211 | the motion-photo proposal cuts one trailing `.MP4` and appends `.jpg` |
| Reconciler.EditedCandidate | src/photos.js:213-216 | for any `p` and `q` that do not include `-edited`, the edited-variant proposal for `p-editedq` is `pq` |
| Reconciler.ExtraServesAsMain | src/photos.js:196-252 | an extra attached earlier can be the main file of a later one, so the order of the media files decides the outcome |
| Report.SplitJoin | src/photos.js:313 | splitting on `","` undoes joining with it when no field holds a double quote |
| Report.RowReads | src/photos.js:291 | a row of plain fields parses back as those fields and holds no line break |
| Report.ReportReads | src/photos.js:289-293 | a report whose rows are non-empty and plain reads back as exactly those rows, in order |
| Report.PairCsvReads | src/photos.js:289-305 | a two-column report reads back as one `[key, value]` row per key, in insertion order |
| Report.JsonCsv | src/photos.js:282-293 | the sidecar-to-file report starts with its header and, when no path holds a line break or a double quote, reads back as one `[sidecar, file]` row per matched sidecar in insertion order |
| Report.FilesCsv | src/photos.js:295-305 | the file-to-sidecar report starts with its header and, for plain paths, reads back as one `[file, sidecar]` row per owned file in insertion order |
| Report.ExtraCsv | src/photos.js:307-316 | the extras report starts with its header, and is the header alone when no sidecar has extras |
| Report.JoinNested | src/photos.js:313 | a sidecar's row with its extra list joined into the second field is the row of the sidecar followed by the extras |
| Report.ExtraCsvReads | src/photos.js:307-316 | the extras report reads back as one row per sidecar with extras: the sidecar, then its extras in attachment order |
| Report.NoEscapingAmbiguity | src/photos.js:291 | because nothing is escaped, two different stores can produce the same report text |
| Photos.Run | src/photos.js:29-36 | the run leaves a valid store; it crashes exactly when some scanned sidecar has a bad title outside the custom table, and otherwise gives one outcome per sidecar and per media file |
| Photos.MatchAllCrash | src/photos.js:74-84 | the matching pass ends in a crash exactly when one of its sidecars crashes |
| Photos.RunAccounts | src/photos.js:29-36 | after a completed run a sidecar is matched exactly when its outcome says so, a media file is owned exactly when it was matched or attached, and every owned file is a media file of the tree |
| Legacy.LegacySuffix | index.js:160-166 | the index is empty when the name does not end in `)`, is empty exactly when no single-digit index ends the name, and otherwise is that three-character index |
| Legacy.LegacyCandidateShape | index.js:144-146 | the candidate lies in the sidecar's directory, named after the raw title, with the index in front of the title's extension |
| Legacy.CandidateParts | index.js:144-146 | both branches of the candidate are stem, index and extension joined onto the sidecar's directory |
| Legacy.IndexJson | index.js:137-158 | a JSON error happens exactly when the sidecar is unreadable or its title is not a string; otherwise the candidate is looked up, and it is found exactly when it is a media file |
| Legacy.LegacyCandidate | index.js:144-146 | the candidate starts with the sidecar's directory and a separator and ends with the title's extension; for a separator-free title it is exactly as long as directory, separator, title and index together |
| Legacy.LegacyRun | index.js:94-135 | the indexed sidecars are exactly the tree's `.json` paths outside the short list, each once. A sidecar logs a JSON error exactly when it has no string title. Otherwise it looks for the candidate its title names, and finds it exactly when that candidate is a non-`.json` path of the tree |
| Legacy.MetadataCopyContrast | index.js:81-86 | `metadata(1).json` is a sidecar to the older revision and ignored by the newer one |
| Legacy.MultiDigitIndexContrast | index.js:9 | a multi-digit index is dropped by the older revision and inserted by the newer one |
| Legacy.SuffixesAgree | index.js:160-166 | where the index is absent or a single digit, both revisions read the same index |
| Legacy.CleanDerivation | src/photos.js:116-167 | the newer revision turns a title needing no repair into stem, index, extension |
| Legacy.RevisionsAgreeOnCleanTitles | index.js:144-146 | a clean title with an extension, at most 51 characters, on a sidecar with no index or a single-digit one, is looked for at the same path by both revisions |
| Legacy.MissingTitleContrast | index.js:139-156 | a title that is not a string is a logged JSON error in the older revision and ends the run in the newer one |

## Left out

- Reading directories and files, `JSON.parse`, and writing the CSV files are not modelled as I/O. The tree and each sidecar's observable content are inputs, and the reports are returned as strings.
- The progress and logging calls (`progress.js`, `progress.debug/info/error`) have no effect on the data and are left out. The outcome datatypes record which log line each sidecar or file ends in.
- The configuration (`startPath`, the CSV paths, `CustomJsonToFile`, `CustomExtraFilesToJson`) is passed in as parameters. `config/general.js` is not part of this model.
- `path.join` normalisation of `.`, `..` and repeated separators is not modelled: `Paths.Join` glues the two parts with one `/`. The scanner's paths never need normalisation. A title passed to `path.join` as it is, which index.js:145 does, is not normalised by `Legacy.LegacyCandidate` when it holds `..` or `/`, while Node would normalise it.
- `Paths.Dirname` gives the empty string instead of `/` for a path directly under the root; joining reproduces the same path either way.
- A Dafny `char` stands for one UTF-16 code unit. No surrogate-pair or normalisation concerns are modelled, which matches what `String.length` and `substring` count.
- `Matcher.JsonContent` collapses a title that is missing and one that is not a string into one case, because the source treats them alike. A non-string title whose `replaceAll` would not throw (an object that happens to have that method) is not modelled.
- `index.js` ends with `process.exit()` and its status-bar clock. These, like the `Progress` class in that file, are left out.
- `Store.TryAddExtra`: the invariant is promised only when the extra file is unowned. The source never checks this itself, and the second pass's skip of owned files is what guarantees it.
- `Report.ReportReads`, `Report.PairCsvReads`, `Report.JsonCsv`, `Report.FilesCsv`, `Report.ExtraCsvReads`: the read-back holds only for paths free of line breaks and double quotes. The source escapes nothing, and `Report.NoEscapingAmbiguity` shows what goes wrong otherwise.
- Reconciler.CandidateProposes: the custom rule's directory and name are stated only for a table value without `/`. `path.join` would normalise a value with `/`, and that normalisation is not modelled.
- Matcher.MatchJson, Matcher.CustomIgnoresContent: the claimed file is `Paths.Join` of the directory and the table's value, without the normalisation `path.join` applies to a value holding `/` or `..`.
