# KeYmaera X web client: model upload, model dialog and model list

This project models the decision logic of the KeYmaera X web client's model controllers
(`hpmodels.js`) and proves properties of it. Three controllers and one filter are covered:

- **Upload dialog** (`ModelUploadCtrl`). It decides what kind of upload a text is. `numKyxEntries`
  counts labelled archive entries (`Theorem`, `Lemma`, `ArchiveEntry` or `Exercise`, then optional
  whitespace, then a double-quoted label). `numKyxTactics` counts labelled `Tactic`s. The counts
  decide whether a proof starts right after the upload. Loading a file falls back to the template
  when the file is empty, and names the model after the file when the file holds no archive entry.
  The module also models how the dialog reacts to the server's reply.
- **Model dialog** (`ModelDialogCtrl`). This is an edit session on one model. It keeps a working
  copy and a snapshot. Saving a changed model first deletes its proof steps, if it has any. The update
  is sent only after that deletion succeeds. On success, the shared `Models` registry entry takes
  over the four edited fields (name, title, description and key file). Cancelling reverts the key
  file only. The module also models the name check and the completeness check.
- **Model list** (`ModelListCtrl`). The folder path is a stack: the breadcrumb truncates it and
  opening a folder pushes onto it. `currentDateString` formats the date stamp of download file names.
- **`unique` filter**. It keeps the first item for each property value, in the original order.

Modules:

| module | file | contents |
|---|---|---|
| `Wrappers` | wrappers.dfy | `Option`, for JavaScript's `undefined` |
| `JsLib` | jslib.dfy | `indexOf`, `slice(0, end)` and `substring(0, end)` with JavaScript's index rules |
| `ArchiveClassifier` | archive_classifier.dfy | the regex counts, as a leftmost scan |
| `ModelUpload` | upload.dfy | the upload dialog |
| `ModelStore` | model_store.dfy | the model record and the `Models` registry |
| `ModelDialog` | model_dialog.dfy | the edit session and its save protocol |
| `UniqueFilter` | unique_filter.dfy | the `unique` filter |
| `ModelList` | model_list.dfy | the folder stack and the date stamp |

The regular expressions are modelled as the scan that `String.prototype.match` performs with the
`g` flag. At each position, the keywords are tried in the order of the alternation. After a keyword
come a maximal run of whitespace, a quote, and everything up to the next quote. After a match the
scan resumes behind the closing quote; otherwise it moves on by one character. Neither `\s*` nor
`[^"]*` can backtrack to another match, so this scan finds exactly the regex's matches.
`CountIsLeftmostMatches` proves this independently of the scan's code. Every sequence of spans that
is correct, left to right, non-overlapping and misses no match has exactly as many spans as the
count.

Server replies are the methods' parameters:
- the result of the upload post;
- the success flag of the proof-step deletion;
- the outcome of the update post.

The requests the controllers send and what they show in the interface are recorded, in order, as a
sequence of effects. So each save flow is one sequential chain, and the protocol's ordering claims
can be stated about that sequence.

`cancel` (hpmodels.js:473-476) restores only `keyFile`, so an edited name, title or description
survives. `Dialog.Cancel` and `EditThenCancel` state this.

Rows whose third column begins "definition" name a member without a contract of its own. The
lemmas named in that cell state what it means.

## Model

| member | source | states |
|---|---|---|
| `ArchiveClassifier.IsWs` | keymaerax-webui/src/main/resources/js/controllers/hpmodels.js:23 | definition of `\s`: ECMAScript's WhiteSpace and LineTerminator characters; `SkipWs` uses it |
| `ArchiveClassifier.EntryKeywords` | keymaerax-webui/src/main/resources/js/controllers/hpmodels.js:23 | definition of the entry regex's alternatives, in their order; `MatchAtSound` and `KeywordMatch` state how the order decides |
| `ArchiveClassifier.TacticKeywords` | keymaerax-webui/src/main/resources/js/controllers/hpmodels.js:29 | definition of the tactic regex's one keyword; `TacticExample` uses it |
| `ArchiveClassifier.SkipWs` | keymaerax-webui/src/main/resources/js/controllers/hpmodels.js:23 | the greedy `(\s*)`: every skipped character is JavaScript whitespace and the scan stops at the first that is not |
| `ArchiveClassifier.NextQuote` | keymaerax-webui/src/main/resources/js/controllers/hpmodels.js:23 | `[^"]*"`: the first double quote at or after the position, or none when no quote follows |
| `ArchiveClassifier.LabelAfter` | keymaerax-webui/src/main/resources/js/controllers/hpmodels.js:23 | a match of one alternative ends behind a double quote, at least two characters past the keyword |
| `ArchiveClassifier.MatchAt` | keymaerax-webui/src/main/resources/js/controllers/hpmodels.js:23 | a match of the alternation ends behind a double quote, inside the text |
| `ArchiveClassifier.Matcher` | keymaerax-webui/src/main/resources/js/controllers/hpmodels.js:23 | every match found at a position ends after that position and inside the text |
| `ArchiveClassifier.LabelAfterSound` | keymaerax-webui/src/main/resources/js/controllers/hpmodels.js:23 | a match is the keyword, then whitespace, then a quote, a label without quotes and a closing quote |
| `ArchiveClassifier.LabelAfterComplete` | keymaerax-webui/src/main/resources/js/controllers/hpmodels.js:23 | conversely, every keyword-whitespace-quoted-label text matches and ends right after its closing quote |
| `ArchiveClassifier.MatchAtSound` | keymaerax-webui/src/main/resources/js/controllers/hpmodels.js:23 | the match at a position is the first alternative, in the order Theorem, Lemma, ArchiveEntry, Exercise, that matches there |
| `ArchiveClassifier.MatchAtComplete` | keymaerax-webui/src/main/resources/js/controllers/hpmodels.js:23 | conversely, when any alternative matches at a position, the alternation matches there |
| `ArchiveClassifier.OpeningQuote` | keymaerax-webui/src/main/resources/js/controllers/hpmodels.js:23 | every match holds an opening quote before its closing one |
| `ArchiveClassifier.KeywordMatch` | keymaerax-webui/src/main/resources/js/controllers/hpmodels.js:23 | when the earlier alternatives cannot start at a position and a later one matches a quoted label there, the match is that label |
| `ArchiveClassifier.NumKyxEntries` | keymaerax-webui/src/main/resources/js/controllers/hpmodels.js:20-25 | 0 for undefined or empty text, otherwise the number of matches of the entry pattern |
| `ArchiveClassifier.NumKyxTactics` | keymaerax-webui/src/main/resources/js/controllers/hpmodels.js:27-31 | 0 for undefined or empty text, otherwise the number of matches of the tactic pattern |
| `ArchiveClassifier.Scan` | keymaerax-webui/src/main/resources/js/controllers/hpmodels.js:24 | definition of the global match loop; `ScanIsLeftmost` and `LeftmostScanIsUnique` characterise its result |
| `ArchiveClassifier.CountMatches` | keymaerax-webui/src/main/resources/js/controllers/hpmodels.js:24 | definition of `.length` of the match array; `CountIsLeftmostMatches` and `CountZeroIffNoMatch` characterise it |
| `ArchiveClassifier.ScanSpansMatch` | keymaerax-webui/src/main/resources/js/controllers/hpmodels.js:24 | every span the global match reports is a match that starts at or after the scan's start |
| `ArchiveClassifier.ScanOrdered` | keymaerax-webui/src/main/resources/js/controllers/hpmodels.js:24 | the reported matches are left to right and do not overlap |
| `ArchiveClassifier.ScanCovers` | keymaerax-webui/src/main/resources/js/controllers/hpmodels.js:24 | every position where a match starts lies inside a reported match |
| `ArchiveClassifier.ScanIsLeftmost` | keymaerax-webui/src/main/resources/js/controllers/hpmodels.js:24 | the reported matches are correct, ordered and complete |
| `ArchiveClassifier.LeftmostScanHead` | keymaerax-webui/src/main/resources/js/controllers/hpmodels.js:24 | such a sequence starts with the match at the scan's start, when there is one |
| `ArchiveClassifier.LeftmostScanTail` | keymaerax-webui/src/main/resources/js/controllers/hpmodels.js:24 | after its first match, such a sequence is again correct, ordered and complete from that match's end |
| `ArchiveClassifier.LeftmostScanIsUnique` | keymaerax-webui/src/main/resources/js/controllers/hpmodels.js:24 | any correct, ordered, complete sequence of matches is exactly the one the scan reports |
| `ArchiveClassifier.CountIsLeftmostMatches` | keymaerax-webui/src/main/resources/js/controllers/hpmodels.js:24 | the count is the length of the leftmost non-overlapping complete match sequence, and every such sequence has that length |
| `ArchiveClassifier.ScanEmptyIffNoMatch` | keymaerax-webui/src/main/resources/js/controllers/hpmodels.js:24 | the scan reports nothing exactly when no position matches |
| `ArchiveClassifier.CountZeroIffNoMatch` | keymaerax-webui/src/main/resources/js/controllers/hpmodels.js:24 | the count is 0 exactly when the pattern matches at no position |
| `ArchiveClassifier.NoContentNoEntries` | keymaerax-webui/src/main/resources/js/controllers/hpmodels.js:21-31 | undefined and empty text count no entry and no tactic |
| `ArchiveClassifier.NoKeywordAt` | keymaerax-webui/src/main/resources/js/controllers/hpmodels.js:23 | no match starts at a character that begins none of the keywords |
| `ArchiveClassifier.NoQuoteNoMatch` | keymaerax-webui/src/main/resources/js/controllers/hpmodels.js:23 | no match is found after the last double quote |
| `ArchiveClassifier.OneQuoteNoMatch` | keymaerax-webui/src/main/resources/js/controllers/hpmodels.js:23-24 | a text with at most one double quote counts no match |
| `ArchiveClassifier.NoInitialNoMatch` | keymaerax-webui/src/main/resources/js/controllers/hpmodels.js:23 | text that contains none of the keywords' initials has no match |
| `ArchiveClassifier.TwoEntriesExample` | keymaerax-webui/src/main/resources/js/controllers/hpmodels.js:21-25 | two `ArchiveEntry "…".` lines count 2 |
| `ArchiveClassifier.NoWordBoundaryExample` | keymaerax-webui/src/main/resources/js/controllers/hpmodels.js:23 | there is no word boundary: `MyTheorem "x"` counts 1 |
| `ArchiveClassifier.SwallowedKeywordExample` | keymaerax-webui/src/main/resources/js/controllers/hpmodels.js:23-24 | a keyword inside a matched label is swallowed: `Theorem "Lemma"` counts 1 |
| `ArchiveClassifier.MultiLineLabelExample` | keymaerax-webui/src/main/resources/js/controllers/hpmodels.js:23 | a label may span a line break |
| `ArchiveClassifier.UnclosedQuoteExample` | keymaerax-webui/src/main/resources/js/controllers/hpmodels.js:23-24 | a label without a closing quote is not counted: `Theorem "x` counts 0 |
| `ArchiveClassifier.TacticExample` | keymaerax-webui/src/main/resources/js/controllers/hpmodels.js:29-30 | `Tactic "t1"` counts one tactic |
| `JsLib.IndexOf` | keymaerax-webui/src/main/resources/js/controllers/hpmodels.js:15 | `indexOf` of an element: -1 exactly when absent, otherwise the first position holding it |
| `JsLib.IndexOfFrom` | keymaerax-webui/src/main/resources/js/controllers/hpmodels.js:464 | the first occurrence of a substring at or after a position, or -1 when there is none |
| `JsLib.IndexOfSub` | keymaerax-webui/src/main/resources/js/controllers/hpmodels.js:464 | `indexOf` of a substring: -1 exactly when it occurs nowhere, otherwise its first occurrence |
| `JsLib.SliceTo` | keymaerax-webui/src/main/resources/js/controllers/hpmodels.js:169 | `slice(0, end)`: a prefix; `end` is clamped to the length, and a negative `end` counts from the back |
| `JsLib.SubstringTo` | keymaerax-webui/src/main/resources/js/controllers/hpmodels.js:15 | `substring(0, end)`: the prefix up to `end`, clamped into the sequence; empty for a negative `end` |
| `ModelUpload.AutoStartProof` | keymaerax-webui/src/main/resources/js/controllers/hpmodels.js:33-36 | a proof starts exactly when one was asked for, the text has at most one entry and no labelled tactic matches anywhere |
| `ModelUpload.FileNamePrefix` | keymaerax-webui/src/main/resources/js/controllers/hpmodels.js:15 | the file name up to its first dot; `""` when there is no dot |
| `ModelUpload.UploadEffects` | keymaerax-webui/src/main/resources/js/controllers/hpmodels.js:55-92 | success closes the dialog, then starts a proof if auto-start holds and refreshes the list otherwise; the effects are exactly the close and then one of the two. A refusal shows exactly its error text under "Error Uploading Model", or, when the text is absent or empty, exactly the unknown-error title and text. A failed request shows exactly the parse error with the uploaded text |
| `ModelUpload.Template` | keymaerax-webui/src/main/resources/js/controllers/hpmodels.js:4 | definition of the template text; `TemplateHeaderMatches`, `TemplateBodyMatchesNothing`, `TemplateHasNoTactic` and `TemplateStartsProof` state what it counts |
| `ModelUpload.UploadDialog.constructor` | keymaerax-webui/src/main/resources/js/controllers/hpmodels.js:4-9 | a new dialog has no model name and the template as its text |
| `ModelUpload.UploadDialog.UpdateModelContentFromFile` | keymaerax-webui/src/main/resources/js/controllers/hpmodels.js:11-16 | empty or undefined file text becomes the template; text without entries names the model after the file's prefix; otherwise the name is unchanged |
| `ModelUpload.UploadDialog.UploadContent` | keymaerax-webui/src/main/resources/js/controllers/hpmodels.js:33-37 | sends the current name and text, with the auto-start flag and the reply handling above |
| `ModelUpload.TemplateHeaderMatches` | keymaerax-webui/src/main/resources/js/controllers/hpmodels.js:4 | the template's header `ArchiveEntry "New Entry"` is a match |
| `ModelUpload.TemplateBodyMatchesNothing` | keymaerax-webui/src/main/resources/js/controllers/hpmodels.js:4 | the rest of the template holds no entry |
| `ModelUpload.TemplateHasNoTactic` | keymaerax-webui/src/main/resources/js/controllers/hpmodels.js:4 | the template holds no tactic |
| `ModelUpload.TemplateStartsProof` | keymaerax-webui/src/main/resources/js/controllers/hpmodels.js:36 | the template is one entry without tactics, so uploading it with `startProof` starts a proof |
| `ModelStore.FindModel` | keymaerax-webui/src/main/resources/js/controllers/hpmodels.js:426 | `Models.getModel` as the position of the model it returns: the first registry position with the id, or none exactly when no model has it |
| `ModelStore.WithEdits` | keymaerax-webui/src/main/resources/js/controllers/hpmodels.js:429-432 | the entry takes the four edited fields and keeps its id, proof count and exercise flag |
| `ModelDialog.IsDirty` | keymaerax-webui/src/main/resources/js/controllers/hpmodels.js:404-406 | definition of the dirty check on the four editable fields; `AfterCheck`, `CleanCheckSendsNothing` and `SavedModelIsClean` state its effect |
| `ModelDialog.UpdateOf` | keymaerax-webui/src/main/resources/js/controllers/hpmodels.js:419-424 | definition of the update request's body, the four edited fields; `AfterUpload` and `DeleteBeforeUpdate` state when it is sent |
| `ModelDialog.ModelIsComplete` | keymaerax-webui/src/main/resources/js/controllers/hpmodels.js:464 | true exactly when the model is loaded and its key file contains the ten-underscore marker at no position |
| `ModelDialog.OthersNamed` | keymaerax-webui/src/main/resources/js/controllers/hpmodels.js:467 | exactly the registry models with that name and a different id |
| `ModelDialog.CheckName` | keymaerax-webui/src/main/resources/js/controllers/hpmodels.js:466-471 | rules in order: a missing or empty name is mandatory; otherwise it is a duplicate exactly when another id has it; it is valid exactly when given and no other id has it |
| `ModelDialog.CheckNameExamples` | keymaerax-webui/src/main/resources/js/controllers/hpmodels.js:466-471 | undefined is mandatory, another model's name is a duplicate, the model's own name is valid |
| `ModelDialog.CloseAndSave` | keymaerax-webui/src/main/resources/js/controllers/hpmodels.js:412-413 | the dialog closes first, and the save command runs exactly when it is set |
| `ModelDialog.AfterUpload` | keymaerax-webui/src/main/resources/js/controllers/hpmodels.js:418-449 | the update is sent first and there is no rollback. On failure the snapshot and registry are unchanged and the dialog stays open. On success with an entry, exactly that entry takes the four fields, the other entries stay, the snapshot is the working copy and the dialog closes |
| `ModelDialog.AfterDelete` | keymaerax-webui/src/main/resources/js/controllers/hpmodels.js:394-401 | the deletion is requested; only on success the working copy's proof count becomes 0; snapshot and registry unchanged |
| `ModelDialog.AfterCheck` | keymaerax-webui/src/main/resources/js/controllers/hpmodels.js:403-416 | returns true exactly when unchanged (close and save only). A changed model without proof steps is updated; with steps, it is updated only after a successful deletion, and a failed one only records the request |
| `ModelDialog.CleanCheckSendsNothing` | keymaerax-webui/src/main/resources/js/controllers/hpmodels.js:411-415 | an unchanged model closes the dialog and issues neither a deletion nor an update, changing no state |
| `ModelDialog.DeleteBeforeUpdate` | keymaerax-webui/src/main/resources/js/controllers/hpmodels.js:394-409 | with proof steps, the deletion is the first request and the update the second; a failed deletion sends no update and changes nothing else |
| `ModelDialog.NoProofStepsNoDelete` | keymaerax-webui/src/main/resources/js/controllers/hpmodels.js:407-409 | without proof steps, the update is sent straight away and no deletion is requested |
| `ModelDialog.SavedModelIsClean` | keymaerax-webui/src/main/resources/js/controllers/hpmodels.js:403-434 | after a successful save of a registered model, the copies agree and checking again closes the dialog |
| `ModelDialog.Dialog.constructor` | keymaerax-webui/src/main/resources/js/controllers/hpmodels.js:367-381 | working copy and snapshot are both the loaded model; no save command; nothing issued |
| `ModelDialog.Dialog.Edit` | keymaerax-webui/src/main/resources/js/controllers/hpmodels.js:369 | the form changes the four editable fields of the working copy only |
| `ModelDialog.Dialog.SetSaveCommand` | keymaerax-webui/src/main/resources/js/controllers/hpmodels.js:372 | a submit button sets the save command and changes nothing else |
| `ModelDialog.Dialog.DeleteModelProofSteps` | keymaerax-webui/src/main/resources/js/controllers/hpmodels.js:394-401 | the new state is `AfterDelete` of the old; it proceeds exactly when the deletion succeeded |
| `ModelDialog.Dialog.UploadModel` | keymaerax-webui/src/main/resources/js/controllers/hpmodels.js:418-449 | the new dialog and registry state is `AfterUpload` of the old |
| `ModelDialog.Dialog.CheckModelData` | keymaerax-webui/src/main/resources/js/controllers/hpmodels.js:403-416 | the new state and the result are `AfterCheck` of the old state |
| `ModelDialog.Dialog.Cancel` | keymaerax-webui/src/main/resources/js/controllers/hpmodels.js:473-476 | only the key file reverts to the snapshot's; the other edits, the snapshot and the registry stay; the dialog closes |
| `ModelDialog.EditThenCancel` | keymaerax-webui/src/main/resources/js/controllers/hpmodels.js:473-476 | after editing and cancelling, the edited name remains, the key file is the original and the registry is untouched |
| `UniqueFilter.UniqueBy` | keymaerax-webui/src/main/resources/js/controllers/hpmodels.js:350-362 | definition of the filter's result; `Unique` computes it, and `UniqueByCoversValues`, `UniqueByDistinct` and `UniqueByKeepsFirstOccurrences` characterise it |
| `UniqueFilter.PropVals` | keymaerax-webui/src/main/resources/js/controllers/hpmodels.js:355 | the property value of each item, position by position |
| `UniqueFilter.Unique` | keymaerax-webui/src/main/resources/js/controllers/hpmodels.js:350-363 | the loop computes the filter's result. Its values are pairwise distinct and every item's value appears. It is a subsequence in order, and each kept item is the first with its value |
| `UniqueFilter.UniqueByCoversValues` | keymaerax-webui/src/main/resources/js/controllers/hpmodels.js:354-359 | every input item's property value appears in the result |
| `UniqueFilter.UniqueByDistinct` | keymaerax-webui/src/main/resources/js/controllers/hpmodels.js:354-359 | no two kept items share a property value |
| `UniqueFilter.UniqueByKeepsFirstOccurrences` | keymaerax-webui/src/main/resources/js/controllers/hpmodels.js:354-359 | the result sits at increasing input positions, each the first with its value |
| `UniqueFilter.FirstOccurrencesSkip` | keymaerax-webui/src/main/resources/js/controllers/hpmodels.js:356 | an item whose value was seen is not kept, and the earlier positions stay valid |
| `UniqueFilter.FirstOccurrencesKeep` | keymaerax-webui/src/main/resources/js/controllers/hpmodels.js:356-358 | an item with an unseen value is kept, and it is the first with that value |
| `ModelList.ReadModelList` | keymaerax-webui/src/main/resources/js/controllers/hpmodels.js:153-163 | the root list is requested exactly for the empty path, otherwise the folder's |
| `ModelList.TruncatePath` | keymaerax-webui/src/main/resources/js/controllers/hpmodels.js:167-169 | always a prefix of the path; empty for an undefined index; `slice` rules for the others |
| `ModelList.FolderView.constructor` | keymaerax-webui/src/main/resources/js/controllers/hpmodels.js:108 | the path starts empty and the root list is requested |
| `ModelList.FolderView.SetWorkingDir` | keymaerax-webui/src/main/resources/js/controllers/hpmodels.js:167-171 | the path is truncated, then its list is requested |
| `ModelList.FolderView.OpenFolder` | keymaerax-webui/src/main/resources/js/controllers/hpmodels.js:187-190 | the folder is pushed onto the path, then its list is requested |
| `ModelList.OpenThenBack` | keymaerax-webui/src/main/resources/js/controllers/hpmodels.js:167-190 | opening a folder and going back to its parent, by index or by -1, restores the path |
| `ModelList.TruncateTwice` | keymaerax-webui/src/main/resources/js/controllers/hpmodels.js:169 | truncating twice keeps the shorter prefix |
| `ModelList.NatToString` | keymaerax-webui/src/main/resources/js/controllers/hpmodels.js:251-253 | `String(n)`: decimal digits without a leading zero |
| `ModelList.IntToString` | keymaerax-webui/src/main/resources/js/controllers/hpmodels.js:253 | `String(i)` of an integer is not empty |
| `ModelList.ToJsString` | keymaerax-webui/src/main/resources/js/controllers/hpmodels.js:251-253 | definition of `String(v)` for a number or a string; `JsPlus`, `TwoDigitNumeral` and `AsWrittenSumsLateDates` use it |
| `ModelList.JsPlus` | keymaerax-webui/src/main/resources/js/controllers/hpmodels.js:251-253 | `+` adds two numbers and concatenates the strings when either operand is a string |
| `ModelList.ParseNatToString` | keymaerax-webui/src/main/resources/js/controllers/hpmodels.js:251-253 | reading a numeral back gives the number |
| `ModelList.NumeralLength` | keymaerax-webui/src/main/resources/js/controllers/hpmodels.js:253 | a number from 10^(L-1) up to 10^L has L digits |
| `ModelList.NumeralLengthAtMost` | keymaerax-webui/src/main/resources/js/controllers/hpmodels.js:253 | a number below 10^L has at most L digits |
| `ModelList.BelowPowerOfLength` | keymaerax-webui/src/main/resources/js/controllers/hpmodels.js:253 | a number is below 10 to the power of its digit count |
| `ModelList.PadAsWritten` | keymaerax-webui/src/main/resources/js/controllers/hpmodels.js:251-252 | below ten the value becomes the string `'0' + n`; from ten on it stays a number |
| `ModelList.CurrentDateStringAsWritten` | keymaerax-webui/src/main/resources/js/controllers/hpmodels.js:245-254 | with a single-digit day or month, the stamp is the concatenation; otherwise it is the numeric sum of month, day and year |
| `ModelList.Pad2` | keymaerax-webui/src/main/resources/js/controllers/hpmodels.js:251-252 | two digits that read back as the number |
| `ModelList.CurrentDateString` | keymaerax-webui/src/main/resources/js/controllers/hpmodels.js:245-254 | the intended stamp: two digits that read back as the month, two as the day, then the year |
| `ModelList.DateStringIsEightDigits` | keymaerax-webui/src/main/resources/js/controllers/hpmodels.js:245-254 | for a four-digit year the intended stamp is eight digits, MMDDYYYY |
| `ModelList.AsWrittenAgreesWhenPadded` | keymaerax-webui/src/main/resources/js/controllers/hpmodels.js:251-253 | with a single-digit day or month, the code yields the intended stamp |
| `ModelList.TwoDigitNumeral` | keymaerax-webui/src/main/resources/js/controllers/hpmodels.js:251-252 | the padded value's string is the two-digit form |
| `ModelList.AsWrittenSumsLateDates` | keymaerax-webui/src/main/resources/js/controllers/hpmodels.js:253 | on 25 December 2024 the code yields 2061 instead of "12252024" |
| `ModelList.AsWrittenCorrectIff` | keymaerax-webui/src/main/resources/js/controllers/hpmodels.js:245-254 | for years from 0 on, the code is right exactly when the day or the month has a single digit |

## Left out

- HTTP requests, their URLs and `encodeURIComponent` are not modelled. Replies are parameters:
  `UploadReply`, the `deleted` flag and `UpdateReply`. Requests are recorded as effects.
- Dialogs and messages (`$uibModal`, `showMessage`) are not modelled beyond an effect with the
  message's title and text. The same goes for spinners, `$location`, `$route`, `$watch`,
  `$digest`, `$apply` and the intro tour.
- The Ace editor callbacks are not modelled: `aceLoaded`, `aceChanged` and `enableEditing`, along
  with the `editable` flag and `editor` that they use. They are editor wiring.
- Thin I/O wrappers with no decision logic are not modelled:
  - the downloads with `FileSaver`/`Blob`;
  - `importRepo`, `deleteModel`, `deleteAll`, `runTactic`, `testsynthesis`, `open` and
    `openNewModelDialog`;
  - the examples list;
  - `ModelDialogCtrl`'s `startProof`, `redoProof`, `refreshModels` and `showModelIllustrations`;
  - `ModelTacticDialogCtrl` and `DeleteAllModelsDialogCtrl`.
- After a successful upload, only the request is recorded: `CreateProof` or `RefreshModelList`.
  Its reply is not modelled. That reply navigates to the proof or replaces the registry's list.
- The `Models` service is not part of this model, since its source is in another file.
  `FindModel` assumes that `getModel` returns the first model with the id.
- The dialog's initial GET is not modelled. `Dialog.constructor` takes the loaded record.
  `ModelIsComplete` covers the not-yet-loaded case. The other dialog operations assume a loaded model.
- The JSON round-trip deep copy is not modelled. `Model` is a value type, so assigning it is the copy.
- `UploadModel`: `uploadModel` calls `$scope.save.cmd()` unguarded. When no save command is set,
  this throws. The `catch` handler then fails on `err.data.textStatus` before it shows anything.
  The model therefore records no `RunSaveCmd` and nothing after it. The uncaught exception
  itself is not modelled.
- `ModelDialog.ParseErrorShown` carries the reply's `textStatus` as the error shown. The source
  shows the whole `err.data` object.
- Concurrency is not modelled. Overlapping in-flight requests and callbacks that fire after the
  dialog closes fall outside the model, because each save flow runs as one sequential chain.
- `currentDateString` reads the clock through `new Date()`. The model takes the day, the month
  index and the year as parameters, within the ranges that `Date` guarantees.
- `AsWrittenCorrectIff` covers years from 0 on only. For negative years it states nothing.
- The `unique` filter works on sequences. The cases that fall outside are these:
  - undefined `items`, for which `angular.forEach` yields the empty result;
  - objects iterated by their values;
  - a `NaN` property value, which `indexOf` never finds.
- `setWorkingDir`'s index is an integer or undefined. A `null` index counts as undefined, as
  JavaScript's `==` does. Fractional indexes are not modelled.
- `checkName` compares ids with `!==`. The model gives ids a single type, so a string id
  compared with a numeric one is not modelled.
- Text is a sequence of characters. JavaScript indexes UTF-16 code units, but no keyword,
  whitespace character or quote is a surrogate, so the counts are unaffected.
- Model names in the registry are strings. Undefined names are not modelled.

## Findings

| source | as written | input that shows it | evidently intended | confidence | as-written member | corrected member |
|---|---|---|---|---|---|---|
| keymaerax-webui/src/main/resources/js/controllers/hpmodels.js:245-254 | `mm + dd + yyyy`, and `mm` and `dd` become strings only below ten, so with both at ten or more, `+` adds numbers | 25 December 2024 (`getDate()` 25, `getMonth()` 11): the stamp is `2061`, so the file is `models_2061.kyx` | the zero-padded stamp `12252024` (MMDDYYYY) | high, not executed; `AsWrittenSumsLateDates` and `AsWrittenCorrectIff` show it for every such date | `ModelList.CurrentDateStringAsWritten` | `ModelList.CurrentDateString` |

A second observation is not a finding. The save flow deletes the proof steps whenever any of the
four fields changed, including title or description alone (hpmodels.js:404-408).
`DeleteBeforeUpdate` states this behaviour as it is, and the model keeps it.
