# Attachment upload for the support-ticket response form

This project models, in Dafny, the browser script that lets a user attach files
to a response on a support ticket (`app/assets/javascripts/upscan-upload.js`).
Each chosen file is posted to the upload service through a hidden iframe. The
service redirects the iframe to a page whose `key` or `errorCode` query
parameter tells the script how the upload ended. An accepted file becomes a
pair of hidden inputs on the message form:

- `fileAttachments[<i>].fileReference`, which holds the key;
- `fileAttachments[<i>].fileName`, which holds the file's name.

The script also:

- shows one summary row per upload, tagged UPLOADING, UPLOADED or FAILED;
- counts the attached files and hides the browse input at five;
- disables the browse input while an upload is in flight;
- removes a file's pair of inputs by the key's value when its row is removed;
- rebuilds the hidden fields of the upload form after every accepted file;
- blocks a Send with a blank response.

The modules:

- `FieldNames` renders the input names exactly. It proves the facts that the script's CSS selectors and its `.replace` rely on: names are injective, the suffix selector is exact, and replacing the suffix yields the name input.
- `AttachmentStore` holds the message form's attachment inputs as a sequence of structured fields. It defines what appending a pair and removing by value do to that sequence, and it contains the document-order scans that the selectors perform.
- `UploadOutcome` decides, from the iframe's parsed location, between accepting a key and rejecting with a message.
- `UpscanForm` covers the children of the upload form and the rebuild done by `updateUpscanForm`.
- `SendValidation` holds the submit rule of the message form (a function) and the form's error display (a class).
- `Upload` is the page itself. Class `UploadPage` has one method per handler of the script, and browser callbacks are events applied to a named row or reply. Its invariant `Valid` states five things:
  - the attachment inputs are balanced pairs;
  - `currentFiles` is half their number;
  - the display follows the counter;
  - the form submits each key exactly as often as a row on the page carries it;
  - every row is consistent (`RowsValid`): only an UPLOADED row whose upload is over carries a key, never an empty one, and a row in the page has its tag and waits for its upload exactly while it is UPLOADING.

  `CapSafe` states the rule the browse input is meant to enforce: at most one upload in flight, at most five files, and at most four while an upload is in flight.

## Model

| member | source | states |
|---|---|---|
| FieldNames.DecimalInjective | app/assets/javascripts/upscan-upload.js:32-37 | two indices with the same decimal rendering are equal |
| FieldNames.Decimal | app/assets/javascripts/upscan-upload.js:32-37 | an index is rendered as a non-empty digit string without a leading zero whose last digit is the index modulo ten |
| FieldNames.AttachmentName | app/assets/javascripts/upscan-upload.js:32-37 | a generated name starts with `fileAttachments[` and ends with the part's suffix, with the decimal index and `]` between |
| FieldNames.NameInjective | app/assets/javascripts/upscan-upload.js:32-37 | an attachment input's name determines its index and its part (reference or name) |
| FieldNames.ReferenceSuffixExact | app/assets/javascripts/upscan-upload.js:269 | a generated name ends in `.fileReference` exactly when it names a reference input |
| FieldNames.IndexOf | app/assets/javascripts/upscan-upload.js:271 | the result is the first position at or after `from` where the pattern occurs, and None when it occurs nowhere |
| FieldNames.ReplaceFirst | app/assets/javascripts/upscan-upload.js:271 | with no occurrence the string is unchanged; otherwise the text before the first occurrence is kept, the occurrence is replaced, and the text after it is kept |
| FieldNames.ReplaceGivesNameInput | app/assets/javascripts/upscan-upload.js:271 | replacing `.fileReference` by `.fileName` in a reference input's name gives the name input of the same index |
| FieldNames.IframeName | app/assets/javascripts/upscan-upload.js:51 | an iframe name is `upscan-upload-iframe-` followed by a non-empty run of digits |
| FieldNames.IframeNameInjective | app/assets/javascripts/upscan-upload.js:51 | uploads started at different times post into differently named iframes |
| AttachmentStore.ReferenceSelectorExact | app/assets/javascripts/upscan-upload.js:269 | the reference selector matches an input exactly when it is a reference input holding the key |
| AttachmentStore.NameSelectorExact | app/assets/javascripts/upscan-upload.js:271 | the name selector built for index i matches exactly the name inputs of index i |
| AttachmentStore.FirstReference | app/assets/javascripts/upscan-upload.js:269 | `querySelector` semantics: the first reference input holding the key, none before it; None only when no input holds it |
| AttachmentStore.FirstNameInput | app/assets/javascripts/upscan-upload.js:271 | the first name input of index i in document order; None only when there is none |
| AttachmentStore.FindReference | app/assets/javascripts/upscan-upload.js:269 | the scan returns exactly the first matching reference input |
| AttachmentStore.FindNameInput | app/assets/javascripts/upscan-upload.js:271 | the scan returns exactly the first matching name input |
| AttachmentStore.KeyFound | app/assets/javascripts/upscan-upload.js:268-270 | the reference lookup finds an input exactly when the form submits the key |
| AttachmentStore.BalancedEven | app/assets/javascripts/upscan-upload.js:28 | a balanced form has an even number of inputs, so `length / 2` is a whole index equal to the number of references |
| AttachmentStore.Delete | app/assets/javascripts/upscan-upload.js:272-273 | removing one input shortens the form by one and keeps every other input in order |
| AttachmentStore.DeleteTwo | app/assets/javascripts/upscan-upload.js:272-273 | removing two inputs shortens the form by two and keeps every other input in order, unrenumbered |
| AttachmentStore.AppendPair | app/assets/javascripts/upscan-upload.js:26-43 | the old inputs stay as they are, followed by a reference input holding the key and a name input holding the file name, both under index `count / 2` |
| AttachmentStore.AppendKeepsBalance | app/assets/javascripts/upscan-upload.js:26-43 | one upload appends exactly one reference/name pair at the end under index `count / 2`; earlier inputs are unchanged; the form stays balanced; the key is submitted once more and every other key as before |
| AttachmentStore.RemoveTakesFirstPair | app/assets/javascripts/upscan-upload.js:268-275 | removal finds the key exactly when the form submits it; it then deletes the first reference input holding it and the first name input with that index; otherwise the form is unchanged |
| AttachmentStore.RemoveKeepsBalance | app/assets/javascripts/upscan-upload.js:268-275 | a removal keeps the form balanced; when found it takes two inputs away and submits that key once less and every other key as before |
| AttachmentStore.RemoveByValue | app/assets/javascripts/upscan-upload.js:268-275 | the reference input is found exactly when the form submits the key; the form then submits that key once less and every other key as before, and is untouched otherwise |
| AttachmentStore.ReusedIndexRemovesOlderName | app/assets/javascripts/upscan-upload.js:269-273 | when `count / 2` is an index still in use, removing the new upload deletes its reference but the older name input of that index, leaving the new file's name behind |
| UploadOutcome.Classify | app/assets/javascripts/upscan-upload.js:65-94 | the upload is accepted exactly when the location was readable, had no truthy `errorCode` and had a truthy `key`; the accepted key is that key and is never empty |
| UploadOutcome.Truthy | app/assets/javascripts/upscan-upload.js:70-78 | a string-or-null parameter is truthy unless it is null or the empty string |
| UploadOutcome.RejectionsArePrefixed | app/assets/javascripts/upscan-upload.js:72-93 | every rejection message begins with `File upload failed: ` |
| UploadOutcome.ErrorCodeWins | app/assets/javascripts/upscan-upload.js:70-72 | a non-empty error code is rejected with its own text whatever the key is |
| UploadOutcome.EmptyMeansAbsent | app/assets/javascripts/upscan-upload.js:70-78 | an empty parameter is classified exactly as a missing one |
| UploadOutcome.FixedMessages | app/assets/javascripts/upscan-upload.js:86-94 | with neither parameter, or an unreadable location, the message is one of the two fixed texts |
| UpscanForm.FilePosition | app/assets/javascripts/upscan-upload.js:160-168 | the position of the first file input, and the end of the form when there is none |
| UpscanForm.FindFileInput | app/assets/javascripts/upscan-upload.js:160 | the scan returns the first file input's position |
| UpscanForm.WithoutHidden | app/assets/javascripts/upscan-upload.js:154-157 | what remains after the hidden inputs are removed: no hidden input, and never longer than the form |
| UpscanForm.HiddenOf | app/assets/javascripts/upscan-upload.js:154-157 | the hidden inputs of the form, all of them hidden; with the remaining children they account for every child |
| UpscanForm.HiddenInputs | app/assets/javascripts/upscan-upload.js:163-169 | one hidden input per response field, named and valued as that field, in response order |
| UpscanForm.Rebuilt | app/assets/javascripts/upscan-upload.js:153-169 | the rebuilt form is exactly as long as the old non-hidden children plus one input per new field; which children those are is stated by the three Rebuilt lemmas |
| UpscanForm.RemoveHiddenInputs | app/assets/javascripts/upscan-upload.js:154-157 | the loop leaves exactly the non-hidden children, in order |
| UpscanForm.InsertBefore | app/assets/javascripts/upscan-upload.js:163-169 | the loop puts one hidden input per field, in field order, contiguously before the given child |
| UpscanForm.RebuiltKeepsOthers | app/assets/javascripts/upscan-upload.js:153-169 | after the rebuild, the non-hidden children are the old ones in their old order |
| UpscanForm.RebuiltHiddenAreFields | app/assets/javascripts/upscan-upload.js:153-169 | after the rebuild, the hidden inputs are exactly the new fields in order; no old hidden input survives |
| UpscanForm.RebuiltBeforeFileInput | app/assets/javascripts/upscan-upload.js:159-169 | the new fields sit immediately before the first file input, or at the end when there is none |
| SendValidation.TrimBlank | app/assets/javascripts/upscan-upload.js:289-291 | a value trims to the empty string exactly when it is all whitespace |
| SendValidation.TrimStart | app/assets/javascripts/upscan-upload.js:289 | the leading whitespace is removed: what is dropped is whitespace and what remains does not start with whitespace |
| SendValidation.TrimEnd | app/assets/javascripts/upscan-upload.js:289 | the trailing whitespace is removed: what is dropped is whitespace and what remains does not end with whitespace |
| SendValidation.Trim | app/assets/javascripts/upscan-upload.js:289 | `.trim()`: TrimEnd after TrimStart, so only whitespace is cut; what remains is no longer than the value and neither starts nor ends with whitespace |
| SendValidation.Blocks | app/assets/javascripts/upscan-upload.js:285-295 | a submission is stopped exactly when its submitter's value is `send` and the response is blank |
| SendValidation.ResponseForm.constructor | app/assets/javascripts/upscan-upload.js:281-284 | the form starts with no error marks and no error paragraph |
| SendValidation.ResponseForm.DisplayValidationError | app/assets/javascripts/upscan-upload.js:302-317 | marks the group and the field, and at most one error paragraph ever exists |
| SendValidation.ResponseForm.ClearValidationError | app/assets/javascripts/upscan-upload.js:319-327 | unmarks the group and the field and removes the error paragraph |
| SendValidation.ResponseForm.OnSubmit | app/assets/javascripts/upscan-upload.js:284-299 | prevents the submission exactly when the rule blocks it and then shows the error; a Send that passes clears it; any other submitter changes nothing |
| Upload.StateConfig | app/assets/javascripts/upscan-upload.js:229-234 | a state name selects the entry named by it, and nothing for any other name |
| Upload.KeysAfterAccept | app/assets/javascripts/upscan-upload.js:78-81 | appending the pair and marking the row with its key keeps the form balanced and in agreement with the rows on every key |
| Upload.KeysAfterRemove | app/assets/javascripts/upscan-upload.js:268-275 | removing a row that carries a key always finds its pair; the form loses two inputs, stays balanced and agrees with the remaining rows |
| Upload.CapAfterFinish | app/assets/javascripts/upscan-upload.js:78-97 | a completed upload that counts at most one more file keeps the cap rule |
| Upload.CapAfterStart | app/assets/javascripts/upscan-upload.js:249-250 | a new upload started from an enabled input below the cap keeps the cap rule, with the input now disabled |
| Upload.CapAfterRemove | app/assets/javascripts/upscan-upload.js:256-279 | a removal keeps the cap rule when it re-enables the input only for a row in flight |
| Upload.UploadPage.constructor | app/assets/javascripts/upscan-upload.js:103-124 | the page starts with no attachment, no row and a zero counter, with the browse input shown and enabled |
| Upload.UploadPage.UpdateFileCount | app/assets/javascripts/upscan-upload.js:199-206 | the display shows the counter, and the browse input is hidden exactly when the counter is at least five |
| Upload.UploadPage.DisplayUploadError | app/assets/javascripts/upscan-upload.js:177-190 | there is one error box, showing exactly the new message; nothing accumulates |
| Upload.UploadPage.ClearUploadError | app/assets/javascripts/upscan-upload.js:192-197 | an existing error box is hidden with its text kept; a missing one stays missing |
| Upload.UploadPage.UpdateUploadState | app/assets/javascripts/upscan-upload.js:227-254 | a known state retags the row and records a non-empty key; UPLOADING disables browse, UPLOADED and FAILED enable it; an unknown state or a row without its tag changes nothing |
| Upload.UploadPage.AddFileAttachment | app/assets/javascripts/upscan-upload.js:26-43 | the form gains exactly the pair for the key and name under index `count / 2` |
| Upload.UploadPage.CreateSummaryRow | app/assets/javascripts/upscan-upload.js:208-225 | a new UPLOADING row without a key is added, and the browse input is disabled |
| Upload.UploadPage.SelectFile | app/assets/javascripts/upscan-upload.js:109-122 | no file changes nothing; otherwise an existing error box is hidden with its text kept, one UPLOADING row joins the page, browse is disabled and the form targets the new iframe; invariant and cap rule kept |
| Upload.UploadPage.OnLoad | app/assets/javascripts/upscan-upload.js:57-98 | a row removed meanwhile changes nothing. Acceptance appends one pair at index `count / 2`, marks the row UPLOADED with the key and counts one more file. Rejection marks it FAILED, shows the message and writes nothing. The target is always restored, and invariant and cap rule are kept |
| Upload.UploadPage.DiscardLoad | app/assets/javascripts/upscan-upload.js:59-63 | the late result for a removed row changes only the form's target, back to its saved value |
| Upload.UploadPage.RecordSuccess | app/assets/javascripts/upscan-upload.js:78-85 | the pair is appended, the row is UPLOADED with the key, the counter grows by one, browse is enabled, and the form and rows still agree |
| Upload.UploadPage.RecordFailure | app/assets/javascripts/upscan-upload.js:70-94 | the row becomes FAILED, browse is enabled and the message is shown |
| Upload.UploadPage.RemoveAttachment | app/assets/javascripts/upscan-upload.js:268-276 | the form becomes the removal by value of the key, and the counter drops by one exactly when the reference input was found |
| Upload.UploadPage.RemoveRow | app/assets/javascripts/upscan-upload.js:257-276 | the row leaves the page; a row with a key loses its pair and one count; a row without one changes no input |
| Upload.UploadPage.RemoveFile | app/assets/javascripts/upscan-upload.js:256-279 | as written: the row leaves the page; a row without a key re-enables browse; a row with a key loses its pair and one count; the invariant is kept |
| Upload.UploadPage.RemoveFileCorrected | app/assets/javascripts/upscan-upload.js:261-265 | as intended: browse is re-enabled only for a row still UPLOADING, and then the cap rule survives every removal |
| Upload.UploadPage.UpdateUpscanForm | app/assets/javascripts/upscan-upload.js:148-170 | the action becomes the post target and the children become the rebuild with the new fields |
| Upload.UploadPage.RefreshUpscanKeys | app/assets/javascripts/upscan-upload.js:135-146 | a request that fails before any reply changes nothing; a well-formed reply rebuilds the upload form |
| Upload.RemovingFailedRowExceedsCap | app/assets/javascripts/upscan-upload.js:261-265 | a sequence of handlers, each started from an enabled and shown browse input, ends with six files counted and the cap rule broken |

## Left out

- Browser facilities are parameters or absent. The iframe element is absent, and `Date.now()` is the `now` parameter. The form's real submission is absent. `URL` parsing of the iframe's location is represented by `Response`, where `Unreadable` stands for a thrown exception.
- The `fetch` of new upload fields (with `getTicketId`) is the `reply` parameter of `RefreshUpscanKeys`, where None is a failed request. The reply arrives as an event and is not awaited.
- `console.error` logging, the wiring of event listeners, start-up on `DOMContentLoaded`, and the copy of `fileInput.files` to the upload form's file input are all absent. None of them changes state the model tracks.
- Row markup, CSS classes, tag display text and visually hidden spans are presentation only. A row keeps just its tag state, key, file name and whether it is still in the page.
- Upload.UploadPage.AddFileAttachment requires an even number of attachment inputs. With an odd number the script would build the index from a fraction such as `1.5`. The page invariant rules that case out, so the fractional name is not modelled.
- Keys containing `"` or `\` would change the meaning of the attribute selector built from them. The model matches the selector as a plain comparison of values.
- `Object.keys` lists integer-like keys before the others. The model takes the reply's fields as an already ordered sequence.
- `UPLOAD_STATES` is indexed by a string, so a name such as `toString` would find an inherited property. The model knows only the three states the script defines.
- A form group missing around the response field (which would make `displayValidationError` throw) is not modelled. Neither are hidden inputs nested deeper than the upload form's own children.
- The model starts from a page without attachment inputs, as the script's counter starts at zero. Inputs already on the page when it loads are not modelled.
- The browse input's change event is taken to fire only from an enabled, shown input. `SelectFile` promises the cap rule only then.
- The script's own behaviour on the two query parameters is modelled. A non-empty `errorCode` wins when both are present, an empty value counts as absent, and neither present is a failure. A stricter rule (exactly one of the two present) is therefore not enforced.
- Every element the script looks up is assumed to exist, and every reply is assumed well-formed. So the model has no exception thrown inside the success branch of the load handler (lines 79-85). Such an exception is caught at line 90 after the pair is appended and counted, and it leaves a FAILED row carrying a key, a state `RowValid` rules out. One way to reach it is `getTicketId` (lines 172-175) on a page without `#ticket-data`. `Unreadable` covers only a failed read of the iframe's location.
- Upload.UploadPage.RefreshUpscanKeys: the reply is either absent (the request failed) or a well-formed `{postTarget, formFields}`. `fetch` also resolves on HTTP error statuses (lines 138-142). A JSON reply without these members would set `action` to `undefined` and strip the hidden inputs (lines 151-157) before `Object.keys` throws at line 163. That half-rebuilt form is not modelled.
- Status polling, timeouts, a single comma-separated reference field and rebuilding rows from existing inputs do not occur in this script and are not modelled.

## Findings

| source | as written | input that shows it | evidently intended | confidence | as-written member | corrected member |
|---|---|---|---|---|---|---|
| app/assets/javascripts/upscan-upload.js:261-265 | removing any row without a key re-enables the browse input, including a FAILED row, while another upload is still in flight | four files uploaded; a fifth fails; a sixth starts; the failed row is removed; a seventh starts from the re-enabled input; both complete, so six files are counted (more than five) | re-enable only when the removed row was still uploading, as the comment on line 261 says | not executed | Upload.RemovingFailedRowExceedsCap | Upload.UploadPage.RemoveFileCorrected |
