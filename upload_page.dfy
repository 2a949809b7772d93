/**
 * The attachment-upload page as the script drives it: the message form's
 * hidden attachment inputs, the uploaded-file counter and its display, the
 * browse input, the upload-summary rows, the form posting to the upload
 * service and the single upload-error box. Each event handler of the script
 * is a method of UploadPage; the browser's callbacks (the iframe's load,
 * the reply to the key refresh) are events applied to a named row or reply.
 */
module Upload {
  import opened Wrappers
  import opened FieldNames
  import opened AttachmentStore
  import opened UploadOutcome
  import opened UpscanForm

  const MAX_FILES := 5

  /** The three entries of UPLOAD_STATES. */
  datatype Tag = Uploading | Uploaded | Failed

  function StateName(tag: Tag): string {
    match tag
    case Uploading => "UPLOADING"
    case Uploaded => "UPLOADED"
    case Failed => "FAILED"
  }

  /** `UPLOAD_STATES[state]`: the entry a state name selects, if it names one. */
  function StateConfig(state: string): (r: Option<Tag>)
    ensures r.Some? ==> StateName(r.value) == state
    ensures r.None? ==> forall tag :: StateName(tag) != state
  {
    if state == "UPLOADING" then Some(Uploading)
    else if state == "UPLOADED" then Some(Uploaded)
    else if state == "FAILED" then Some(Failed)
    else None
  }

  /**
   * A row of the upload summary. `attached`: the row is in the document;
   * `hasTag`: it holds its status tag; `tag`: the state last set on the tag;
   * `fileKey`: its `data-file-key`; `awaiting`: the iframe of its upload is
   * still waiting for its load event; `savedTarget`: the upload form's target
   * when that upload was submitted.
   */
  datatype Row = Row(
    fileName: string,
    attached: bool,
    hasTag: bool,
    tag: Option<Tag>,
    fileKey: Option<string>,
    awaiting: bool,
    savedTarget: string)

  /** The `upload-error-display` container: its text and whether it is shown. */
  datatype ErrorBox = ErrorBox(text: string, visible: bool)

  /** The key a row contributes to the page: its key while it is in the page. */
  function KeyOf(row: Row): Option<string> {
    if row.attached then row.fileKey else None
  }

  /** A row still in the page that carries a file key. */
  predicate Holds(row: Row, key: string) {
    KeyOf(row) == Some(key)
  }

  /** How many rows in the page carry the key. */
  function RowKeyCount(rows: seq<Row>, key: string): nat {
    if rows == [] then 0
    else RowKeyCount(rows[..|rows| - 1], key) + (if Holds(rows[|rows| - 1], key) then 1 else 0)
  }

  /** A row in the page whose upload has been submitted and has not completed. */
  predicate InFlight(row: Row) {
    row.attached && row.awaiting
  }

  /**
   * What every row keeps: a key only on a row marked UPLOADED whose upload
   * is over, and never an empty one; a row in the page has its tag and a
   * state, and is waiting for its upload exactly when it is UPLOADING.
   */
  predicate RowValid(row: Row) {
    && (row.fileKey.Some? ==> row.fileKey.value != "" && row.tag == Some(Uploaded) && !row.awaiting)
    && (row.attached ==> row.hasTag && row.tag.Some? && (row.awaiting <==> row.tag == Some(Uploading)))
  }

  predicate RowsValid(rows: seq<Row>) {
    forall i :: 0 <= i < |rows| ==> RowValid(rows[i])
  }

  /** The form submits every key exactly as often as the page shows a row carrying it. */
  ghost predicate KeysMatch(attachments: Fields, rows: seq<Row>) {
    forall key :: KeyCount(attachments, key) == RowKeyCount(rows, key)
  }

  /**
   * The cap as the browse input enforces it: at most one upload in flight;
   * while one is, the browse input is disabled and fewer than MAX_FILES files
   * are attached; never more than MAX_FILES.
   */
  predicate CapRule(rows: seq<Row>, currentFiles: int, browseDisabled: bool) {
    && currentFiles <= MAX_FILES
    && (forall i, j :: 0 <= i < |rows| && 0 <= j < |rows| && InFlight(rows[i]) && InFlight(rows[j]) ==> i == j)
    && (forall i :: 0 <= i < |rows| && InFlight(rows[i]) ==> browseDisabled && currentFiles < MAX_FILES)
  }

  lemma {:induction false} RowKeyCountAppend(rows: seq<Row>, x: Row)
    ensures forall key :: RowKeyCount(rows + [x], key) == RowKeyCount(rows, key) + (if Holds(x, key) then 1 else 0)
  {
    assert (rows + [x])[..|rows|] == rows;
  }

  /** Replacing one row changes each key's count by what the two rows contribute. */
  lemma {:induction false} RowKeyCountUpdate(rows: seq<Row>, r: nat, x: Row)
    requires r < |rows|
    ensures forall key ::
      RowKeyCount(rows[r := x], key) + (if Holds(rows[r], key) then 1 else 0)
      == RowKeyCount(rows, key) + (if Holds(x, key) then 1 else 0)
    decreases |rows|
  {
    var n := |rows| - 1;
    var updated := rows[r := x];
    if r == n {
      assert updated[..n] == rows[..n];
    } else {
      assert updated[..n] == rows[..n][r := x];
      RowKeyCountUpdate(rows[..n], r, x);
    }
  }

  /**
   * A row that contributes the same key as the one it replaces, or a new row
   * that contributes none, leaves the key counts as they were.
   */
  lemma KeysAfterRowChange(attachments: Fields, rows: seq<Row>, r: nat, x: Row)
    requires KeysMatch(attachments, rows)
    requires r <= |rows|
    requires KeyOf(x) == if r < |rows| then KeyOf(rows[r]) else None
    ensures KeysMatch(attachments, if r < |rows| then rows[r := x] else rows + [x])
  {
    if r < |rows| {
      RowKeyCountUpdate(rows, r, x);
    } else {
      RowKeyCountAppend(rows, x);
    }
  }

  /**
   * An accepted upload appends one pair for the key and marks the row with
   * it: the form and the rows still agree on every key.
   */
  lemma KeysAfterAccept(attachments: Fields, rows: seq<Row>, r: nat, key: string, fileName: string)
    requires Balanced(attachments) && KeysMatch(attachments, rows)
    requires r < |rows| && rows[r].attached && rows[r].fileKey.None?
    ensures |attachments| % 2 == 0
    ensures Balanced(AppendPair(attachments, key, fileName))
    ensures KeysMatch(AppendPair(attachments, key, fileName),
                      rows[r := rows[r].(tag := Some(Uploaded), fileKey := Some(key))])
  {
    AppendKeepsBalance(attachments, key, fileName);
    RowKeyCountUpdate(rows, r, rows[r].(tag := Some(Uploaded), fileKey := Some(key)));
  }

  /**
   * Removing a row that carries a key: the form holds the key, so the
   * reference lookup finds it, and removing the pair keeps the form and the
   * remaining rows in agreement and the form balanced.
   */
  lemma KeysAfterRemove(attachments: Fields, rows: seq<Row>, r: nat)
    requires Balanced(attachments) && KeysMatch(attachments, rows)
    requires r < |rows| && rows[r].attached && rows[r].fileKey.Some?
    ensures var removal := RemoveByValue(attachments, rows[r].fileKey.value);
      && removal.found
      && Balanced(removal.fields)
      && |removal.fields| == |attachments| - 2
      && KeysMatch(removal.fields, rows[r := rows[r].(attached := false)])
  {
    var key := rows[r].fileKey.value;
    RowKeyCountUpdate(rows, r, rows[r].(attached := false));
    RemoveTakesFirstPair(attachments, key);
    RemoveKeepsBalance(attachments, key);
  }

  /** With the browse input enabled under the cap rule, no upload is in flight. */
  lemma NothingInFlight(rows: seq<Row>, currentFiles: int, browseDisabled: bool)
    requires CapRule(rows, currentFiles, browseDisabled) && !browseDisabled
    ensures forall i :: 0 <= i < |rows| ==> !InFlight(rows[i])
  {
  }

  /** A completed upload leaves no upload in flight and counts at most one more file. */
  lemma CapAfterFinish(rows: seq<Row>, r: nat, x: Row, files: int, files2: int, disabled: bool, disabled2: bool)
    requires CapRule(rows, files, disabled)
    requires r < |rows| && InFlight(rows[r]) && !InFlight(x)
    requires files <= files2 <= files + 1
    ensures CapRule(rows[r := x], files2, disabled2)
  {
    var after := rows[r := x];
    assert forall i :: 0 <= i < |rows| && i != r ==> after[i] == rows[i] && !InFlight(rows[i]);
  }

  /** Changing a row that is not and does not become in flight keeps the cap rule. */
  lemma CapAfterQuietChange(rows: seq<Row>, r: nat, x: Row, files: int, disabled: bool)
    requires CapRule(rows, files, disabled)
    requires r < |rows| && !InFlight(rows[r]) && !InFlight(x)
    ensures CapRule(rows[r := x], files, disabled)
  {
  }

  /** A new upload started from an enabled browse input below the cap keeps the cap rule. */
  lemma CapAfterStart(rows: seq<Row>, x: Row, files: int)
    requires CapRule(rows, files, false) && files < MAX_FILES
    ensures CapRule(rows + [x], files, true)
  {
    NothingInFlight(rows, files, false);
    var longer := rows + [x];
    assert forall i :: 0 <= i < |rows| ==> longer[i] == rows[i];
  }

  /**
   * Removing a row keeps the cap rule when the browse input is re-enabled
   * only for a row that was in flight and the count does not grow.
   */
  lemma CapAfterRemove(rows: seq<Row>, r: nat, files: int, files2: int, disabled: bool)
    requires CapRule(rows, files, disabled)
    requires r < |rows| && files2 <= files
    ensures CapRule(rows[r := rows[r].(attached := false)], files2,
                    if InFlight(rows[r]) then false else disabled)
  {
    var x := rows[r].(attached := false);
    if InFlight(rows[r]) {
      CapAfterFinish(rows, r, x, files, files, disabled, false);
    }
  }

  class UploadPage {
    /** The hidden `fileAttachments[..]` inputs of the message form, in document order. */
    var attachments: Fields
    /** The script's `currentFiles` counter. */
    var currentFiles: int
    /** The number the `files-uploaded` element shows. */
    var countText: int
    var browseDisabled: bool
    var browseHidden: bool
    /** The upload-summary rows, in creation order; a removed row stays, detached. */
    var rows: seq<Row>
    var formAction: string
    var formTarget: string
    var formChildren: seq<Child>
    var uploadError: Option<ErrorBox>

    /**
     * The form's inputs are balanced pairs, one per counted file; the display
     * shows the counter and hides the browse input at the cap; the form
     * submits each key exactly as often as a row in the page carries it.
     */
    ghost predicate Valid()
      reads this
    {
      && Balanced(attachments)
      && |attachments| % 2 == 0
      && currentFiles == |attachments| / 2
      && countText == currentFiles
      && browseHidden == (currentFiles >= MAX_FILES)
      && KeysMatch(attachments, rows)
      && RowsValid(rows)
    }

    ghost predicate CapSafe()
      reads this
    {
      CapRule(rows, currentFiles, browseDisabled)
    }

    /** The page as loaded, after `initUpscanUpload`: no attachment, no row, nothing counted. */
    constructor (action: string, target: string, children: seq<Child>)
      ensures Valid() && CapSafe()
      ensures attachments == [] && currentFiles == 0 && rows == []
      ensures countText == 0 && !browseHidden && !browseDisabled
      ensures formAction == action && formTarget == target && formChildren == children
      ensures uploadError.None?
    {
      attachments := [];
      currentFiles := 0;
      countText := 0;
      browseDisabled := false;
      browseHidden := false;
      rows := [];
      formAction := action;
      formTarget := target;
      formChildren := children;
      uploadError := None;
      new;
      UpdateFileCount();
    }

    /** Shows the counter, and hides the browse input exactly when the cap is reached. */
    method UpdateFileCount()
      modifies this`countText, this`browseHidden
      ensures countText == currentFiles
      ensures browseHidden <==> currentFiles >= MAX_FILES
    {
      countText := currentFiles;
      if currentFiles >= MAX_FILES {
        browseHidden := true;
      } else {
        browseHidden := false;
      }
    }

    /** Creates the single error box if missing; its text is replaced, never accumulated, and shown. */
    method DisplayUploadError(message: string)
      modifies this`uploadError
      ensures uploadError == Some(ErrorBox(message, true))
    {
      var box := if uploadError.None? then ErrorBox("", true) else uploadError.value;
      uploadError := Some(box.(text := message, visible := true));
    }

    /** Hides the error box if there is one, keeping its text. */
    method ClearUploadError()
      modifies this`uploadError
      ensures uploadError == (if old(uploadError).None? then None
                              else Some(old(uploadError).value.(visible := false)))
    {
      if uploadError.Some? {
        uploadError := Some(uploadError.value.(visible := false));
      }
    }

    /**
     * Sets the row's tag to a known state and records a non-empty key on it;
     * UPLOADING disables the browse input, the other states enable it. An
     * unknown state or a row without its tag changes nothing.
     */
    method UpdateUploadState(r: nat, state: string, fileKey: Option<string>)
      requires r < |rows|
      modifies this`rows, this`browseDisabled
      ensures var config := StateConfig(state);
        if config.None? || !old(rows[r].hasTag) then
          rows == old(rows) && browseDisabled == old(browseDisabled)
        else
          && rows == old(rows)[r := old(rows[r]).(tag := config,
                                                  fileKey := if Truthy(fileKey) then fileKey else old(rows[r].fileKey))]
          && (browseDisabled <==> state == "UPLOADING")
    {
      var config := StateConfig(state);
      if config.None? {
        return;
      }
      if !rows[r].hasTag {
        return;
      }
      var row := rows[r].(tag := config);
      if Truthy(fileKey) {
        row := row.(fileKey := fileKey);
      }
      rows := rows[r := row];
      if state == "UPLOADING" {
        browseDisabled := true;
      } else if state == "UPLOADED" || state == "FAILED" {
        browseDisabled := false;
      }
    }

    /** Appends the reference and name inputs of one file under index `count / 2`. */
    method AddFileAttachment(fileKey: string, fileName: string)
      requires |attachments| % 2 == 0
      modifies this`attachments
      ensures attachments == AppendPair(old(attachments), fileKey, fileName)
    {
      var index := |attachments| / 2;
      var keyField := AttachmentField(index, Reference, fileKey);
      var nameField := AttachmentField(index, FileName, fileName);
      attachments := attachments + [keyField];
      attachments := attachments + [nameField];
    }

    /**
     * The browse input's change event followed by the upload submission:
     * nothing without a file; otherwise the error box is hidden, a new
     * UPLOADING row joins the page (which disables the browse input), and the
     * upload form is pointed at the iframe named after `now`, its previous
     * target remembered for the row's load event.
     */
    method SelectFile(file: Option<string>, now: nat)
      requires Valid()
      modifies this`rows, this`browseDisabled, this`uploadError, this`formTarget
      ensures Valid()
      ensures file.None? ==> rows == old(rows) && browseDisabled == old(browseDisabled)
                             && uploadError == old(uploadError) && formTarget == old(formTarget)
      ensures file.Some? ==>
        && rows == old(rows) + [Row(file.value, true, true, Some(Uploading), None, true, old(formTarget))]
        && browseDisabled
        && formTarget == IframeName(now)
        && uploadError == (if old(uploadError).None? then None
                           else Some(old(uploadError).value.(visible := false)))
      ensures old(CapSafe()) && !old(browseDisabled) && !old(browseHidden) ==> CapSafe()
    {
      if file.None? {
        return;
      }
      ghost var before, disabled, hidden := rows, browseDisabled, browseHidden;
      ClearUploadError();
      var r := CreateSummaryRow(file.value);
      var originalTarget := formTarget;
      formTarget := IframeName(now);
      var submitted := rows[r].(attached := true, awaiting := true, savedTarget := originalTarget);
      rows := rows[r := submitted];
      assert rows == before + [submitted];
      KeysAfterRowChange(attachments, before, r, submitted);
      if CapRule(before, currentFiles, disabled) && !disabled && !hidden {
        CapAfterStart(before, submitted, currentFiles);
      }
    }

    /** A new summary row, not yet in the page, set to UPLOADING: the browse input is disabled. */
    method CreateSummaryRow(fileName: string) returns (r: nat)
      modifies this`rows, this`browseDisabled
      ensures r == |old(rows)|
      ensures rows == old(rows) + [Row(fileName, false, true, Some(Uploading), None, false, "")]
      ensures browseDisabled
    {
      r := |rows|;
      rows := rows + [Row(fileName, false, true, None, None, false, "")];
      UpdateUploadState(r, "UPLOADING", None);
    }

    /**
     * The load event of the iframe of row r's upload. A row removed from the
     * page meanwhile changes nothing but the iframe and the form's target.
     * Otherwise an accepted key appends one pair, marks the row UPLOADED with
     * the key and counts one more file; a rejection marks the row FAILED and
     * shows its message, writing no input. In every case the upload form's
     * target is restored to what it was when this upload was submitted.
     */
    method OnLoad(r: nat, response: Response)
      requires Valid() && r < |rows| && rows[r].awaiting
      modifies this`rows, this`attachments, this`currentFiles, this`countText, this`browseHidden,
               this`browseDisabled, this`uploadError, this`formTarget
      ensures Valid()
      ensures formTarget == old(rows[r].savedTarget)
      ensures |rows| == |old(rows)|
      ensures forall i :: 0 <= i < |rows| && i != r ==> rows[i] == old(rows[i])
      ensures !old(rows[r].attached) ==>
        && rows[r] == old(rows[r]).(awaiting := false)
        && attachments == old(attachments) && currentFiles == old(currentFiles)
        && countText == old(countText) && browseHidden == old(browseHidden)
        && browseDisabled == old(browseDisabled) && uploadError == old(uploadError)
      ensures old(rows[r].attached) && Classify(response).Accepted? ==>
        var key := Classify(response).key;
        && attachments == AppendPair(old(attachments), key, old(rows[r].fileName))
        && attachments[|old(attachments)|].index == |old(attachments)| / 2
        && rows[r] == old(rows[r]).(tag := Some(Uploaded), fileKey := Some(key), awaiting := false)
        && currentFiles == old(currentFiles) + 1
        && !browseDisabled && uploadError == old(uploadError)
      ensures old(rows[r].attached) && Classify(response).Rejected? ==>
        && attachments == old(attachments) && currentFiles == old(currentFiles)
        && rows[r] == old(rows[r]).(tag := Some(Failed), awaiting := false)
        && !browseDisabled && uploadError == Some(ErrorBox(Classify(response).message, true))
        && countText == old(countText) && browseHidden == old(browseHidden)
      ensures old(CapSafe()) ==> CapSafe()
    {
      var row := rows[r];
      if !row.attached {
        DiscardLoad(r);
        return;
      }
      ghost var before, files, disabled := rows, currentFiles, browseDisabled;
      match Classify(response) {
        case Rejected(message) =>
          KeysAfterRowChange(attachments, rows, r, row.(tag := Some(Failed)));
          RecordFailure(r, message);
        case Accepted(key) =>
          RecordSuccess(r, key);
      }
      var done := rows[r].(awaiting := false);
      KeysAfterRowChange(attachments, rows, r, done);
      if CapRule(before, files, disabled) {
        CapAfterFinish(before, r, done, files, currentFiles, disabled, browseDisabled);
      }
      rows := rows[r := done];
      assert rows == before[r := done];
      formTarget := row.savedTarget;
    }

    /** The load event of a row removed during its upload: the iframe goes, the form's target is restored. */
    method DiscardLoad(r: nat)
      requires Valid() && r < |rows| && rows[r].awaiting && !rows[r].attached
      modifies this`rows, this`formTarget
      ensures Valid()
      ensures formTarget == old(rows[r].savedTarget)
      ensures rows == old(rows)[r := old(rows[r]).(awaiting := false)]
      ensures old(CapSafe()) ==> CapSafe()
    {
      var row := rows[r];
      KeysAfterRowChange(attachments, rows, r, row.(awaiting := false));
      if CapSafe() {
        CapAfterQuietChange(rows, r, row.(awaiting := false), currentFiles, browseDisabled);
      }
      rows := rows[r := row.(awaiting := false)];
      formTarget := row.savedTarget;
    }

    /** The success branch of the load handler: attach, mark UPLOADED with the key, count. */
    method RecordSuccess(r: nat, key: string)
      requires Valid() && r < |rows| && rows[r].attached && rows[r].awaiting && key != ""
      modifies this`attachments, this`rows, this`browseDisabled, this`currentFiles, this`countText,
               this`browseHidden
      ensures attachments == AppendPair(old(attachments), key, old(rows[r].fileName))
      ensures rows == old(rows)[r := old(rows[r]).(tag := Some(Uploaded), fileKey := Some(key))]
      ensures currentFiles == old(currentFiles) + 1 && !browseDisabled
      ensures Balanced(attachments) && |attachments| % 2 == 0 && currentFiles == |attachments| / 2
      ensures countText == currentFiles && (browseHidden <==> currentFiles >= MAX_FILES)
      ensures KeysMatch(attachments, rows)
    {
      var fileName := rows[r].fileName;
      KeysAfterAccept(attachments, rows, r, key, fileName);
      AddFileAttachment(key, fileName);
      UpdateUploadState(r, "UPLOADED", Some(key));
      currentFiles := currentFiles + 1;
      UpdateFileCount();
    }

    /** A failure branch of the load handler: mark FAILED and show the message. */
    method RecordFailure(r: nat, message: string)
      requires r < |rows| && rows[r].hasTag
      modifies this`rows, this`browseDisabled, this`uploadError
      ensures rows == old(rows)[r := old(rows[r]).(tag := Some(Failed))]
      ensures !browseDisabled && uploadError == Some(ErrorBox(message, true))
    {
      UpdateUploadState(r, "FAILED", None);
      DisplayUploadError(message);
    }

    /**
     * The removal of one uploaded file from the message form: the first
     * reference input holding the key, then the first name input with that
     * input's index, and one file fewer counted, when the reference is found.
     */
    method RemoveAttachment(key: string) returns (found: bool)
      modifies this`attachments, this`currentFiles
      ensures found == RemoveByValue(old(attachments), key).found
      ensures attachments == RemoveByValue(old(attachments), key).fields
      ensures currentFiles == old(currentFiles) - (if found then 1 else 0)
    {
      var keyInput := FindReference(attachments, key);
      found := keyInput.Some?;
      if keyInput.Some? {
        var p := keyInput.value;
        var nameInput := FindNameInput(attachments, attachments[p].index);
        match nameInput {
          case None => attachments := Delete(attachments, p);
          case Some(q) => attachments := DeleteTwo(attachments, p, q);
        }
        currentFiles := currentFiles - 1;
      }
    }

    /**
     * The Remove link of row r, as the script is written: the row leaves the
     * page; a row without a key re-enables the browse input; a row with a key
     * has its pair removed from the form and is counted off.
     */
    method RemoveFile(r: nat)
      requires Valid() && r < |rows| && rows[r].attached
      modifies this`rows, this`attachments, this`currentFiles, this`countText, this`browseHidden,
               this`browseDisabled
      ensures Valid()
      ensures rows == old(rows)[r := old(rows[r]).(attached := false)]
      ensures browseDisabled == (if Truthy(old(rows[r].fileKey)) then old(browseDisabled) else false)
      ensures Truthy(old(rows[r].fileKey)) ==>
        && attachments == RemoveByValue(old(attachments), old(rows[r].fileKey.value)).fields
        && |attachments| == |old(attachments)| - 2
        && currentFiles == old(currentFiles) - 1
      ensures !Truthy(old(rows[r].fileKey)) ==> attachments == old(attachments) && currentFiles == old(currentFiles)
    {
      var row := rows[r];
      RemoveRow(r);
      if !Truthy(row.fileKey) {
        browseDisabled := false;
      }
      UpdateFileCount();
    }

    /**
     * The Remove link of row r with the browse input re-enabled only when
     * the row was still UPLOADING, as the script's own comment intends: the
     * cap rule then survives every removal.
     */
    method RemoveFileCorrected(r: nat)
      requires Valid() && r < |rows| && rows[r].attached
      modifies this`rows, this`attachments, this`currentFiles, this`countText, this`browseHidden,
               this`browseDisabled
      ensures Valid()
      ensures rows == old(rows)[r := old(rows[r]).(attached := false)]
      ensures browseDisabled == (if old(rows[r].tag) == Some(Uploading) then false else old(browseDisabled))
      ensures Truthy(old(rows[r].fileKey)) ==>
        && attachments == RemoveByValue(old(attachments), old(rows[r].fileKey.value)).fields
        && |attachments| == |old(attachments)| - 2
        && currentFiles == old(currentFiles) - 1
      ensures !Truthy(old(rows[r].fileKey)) ==> attachments == old(attachments) && currentFiles == old(currentFiles)
      ensures old(CapSafe()) ==> CapSafe()
    {
      var row := rows[r];
      RemoveRow(r);
      if row.tag == Some(Uploading) {
        browseDisabled := false;
      }
      UpdateFileCount();
    }

    /** What both removals share: detach the row, and drop its pair when it has a key. */
    method RemoveRow(r: nat)
      requires Valid() && r < |rows| && rows[r].attached
      modifies this`rows, this`attachments, this`currentFiles
      ensures rows == old(rows)[r := old(rows[r]).(attached := false)]
      ensures Balanced(attachments) && |attachments| % 2 == 0 && currentFiles == |attachments| / 2
      ensures KeysMatch(attachments, rows) && RowsValid(rows)
      ensures Truthy(old(rows[r].fileKey)) ==>
        && attachments == RemoveByValue(old(attachments), old(rows[r].fileKey.value)).fields
        && |attachments| == |old(attachments)| - 2
        && currentFiles == old(currentFiles) - 1
      ensures !Truthy(old(rows[r].fileKey)) ==> attachments == old(attachments) && currentFiles == old(currentFiles)
    {
      var row := rows[r];
      var detached := row.(attached := false);
      if row.fileKey.None? {
        KeysAfterRowChange(attachments, rows, r, detached);
      } else {
        KeysAfterRemove(attachments, rows, r);
        BalancedEven(RemoveByValue(attachments, row.fileKey.value).fields);
      }
      rows := rows[r := detached];
      var fileKey := row.fileKey;
      if Truthy(fileKey) {
        var found := RemoveAttachment(fileKey.value);
      }
    }

    /**
     * Points the upload form at the new target, removes its hidden inputs and
     * inserts the new fields, in order, before its file input.
     */
    method UpdateUpscanForm(response: UpscanResponse)
      modifies this`formAction, this`formChildren
      ensures formAction == response.postTarget
      ensures formChildren == Rebuilt(old(formChildren), response.formFields)
    {
      formAction := response.postTarget;
      formChildren := RemoveHiddenInputs(formChildren);
      var fileInput := FindFileInput(formChildren);
      formChildren := InsertBefore(formChildren, fileInput, response.formFields);
    }

    /** The reply to the key refresh: a failed request changes nothing, a reply rebuilds the form. */
    method RefreshUpscanKeys(reply: Option<UpscanResponse>)
      modifies this`formAction, this`formChildren
      ensures reply.None? ==> formAction == old(formAction) && formChildren == old(formChildren)
      ensures reply.Some? ==> formAction == reply.value.postTarget
                              && formChildren == Rebuilt(old(formChildren), reply.value.formFields)
    {
      if reply.Some? {
        UpdateUpscanForm(reply.value);
      }
    }
  }

  /** One file chosen from the enabled browse input and accepted by the upload service. */
  method UploadOne(page: UploadPage, fileName: string, key: string, now: nat)
    requires page.Valid() && !page.browseDisabled && !page.browseHidden && key != ""
    modifies page
    ensures page.Valid() && !page.browseDisabled
    ensures page.currentFiles == old(page.currentFiles) + 1
  {
    var r := |page.rows|;
    page.SelectFile(Some(fileName), now);
    page.OnLoad(r, Redirected(Some(key), None));
  }

  /** A fresh page with four files uploaded one after the other. */
  method FourFilesUploaded() returns (page: UploadPage)
    ensures fresh(page) && page.Valid()
    ensures page.currentFiles == MAX_FILES - 1 && !page.browseDisabled && !page.browseHidden
  {
    page := new UploadPage("https://upload.example/upscan", "", [Other("submit"), FileInput]);
    UploadOne(page, "one.pdf", "key-1", 1);
    UploadOne(page, "two.pdf", "key-2", 2);
    UploadOne(page, "three.pdf", "key-3", 3);
    UploadOne(page, "four.pdf", "key-4", 4);
  }

  /**
   * A fifth upload fails, a sixth starts, and the failed row is removed:
   * the sixth upload is still in flight, yet the browse input is enabled.
   */
  method RemoveFailedDuringUpload(page: UploadPage) returns (inFlight: nat)
    requires page.Valid() && page.currentFiles == MAX_FILES - 1
    requires !page.browseDisabled && !page.browseHidden
    modifies page
    ensures page.Valid() && page.currentFiles == MAX_FILES - 1
    ensures inFlight < |page.rows| && InFlight(page.rows[inFlight])
    ensures !page.browseDisabled && !page.browseHidden
  {
    var failed := |page.rows|;
    page.SelectFile(Some("five.pdf"), 5);
    page.OnLoad(failed, Redirected(None, Some("REJECTED")));
    inFlight := |page.rows|;
    assert !page.browseDisabled && !page.browseHidden;
    page.SelectFile(Some("six.pdf"), 6);
    page.RemoveFile(failed);
  }

  /**
   * Removing a FAILED row re-enables the browse input even while another
   * upload is in flight. From a fresh page: four files uploaded; a fifth
   * upload fails; a sixth starts; the failed row is removed; a seventh
   * starts from the re-enabled input; both complete. Every file was chosen
   * from an enabled, displayed browse input, and the page counts six files.
   */
  method RemovingFailedRowExceedsCap() returns (page: UploadPage)
    ensures page.Valid()
    ensures page.currentFiles == MAX_FILES + 1 && |page.attachments| == 2 * (MAX_FILES + 1)
    ensures !page.CapSafe()
  {
    page := FourFilesUploaded();
    var sixth := RemoveFailedDuringUpload(page);
    var seventh := |page.rows|;
    assert !page.browseDisabled && !page.browseHidden;
    page.SelectFile(Some("seven.pdf"), 7);
    page.OnLoad(sixth, Redirected(Some("key-6"), None));
    page.OnLoad(seventh, Redirected(Some("key-7"), None));
  }
}
