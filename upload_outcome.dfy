/**
 * What the load handler of the upload iframe decides from the page the
 * upload service redirected to: the `key` and `errorCode` query parameters,
 * already parsed, or nothing at all when reading the iframe's location
 * threw. Parameters are tested for truthiness, so an empty value counts as
 * absent.
 */
module UploadOutcome {
  import opened Wrappers

  /** The iframe's location: unreadable, or the two optional query parameters. */
  datatype Response = Unreadable | Redirected(key: Option<string>, errorCode: Option<string>)

  /** Either the file key to attach, or the failure message to display. */
  datatype Outcome = Accepted(key: string) | Rejected(message: string)

  /** A JavaScript string-or-null is truthy unless it is null or the empty string. */
  predicate Truthy(p: Option<string>): (b: bool)
    ensures b <==> p != None && p != Some("")
  {
    p.Some? && |p.value| > 0
  }

  const FAILED_PREFIX := "File upload failed: "
  const NO_KEY_MESSAGE := FAILED_PREFIX + "No file key or error code received"
  const UNREADABLE_MESSAGE := FAILED_PREFIX + "Unable to process upload response"

  /**
   * The file is accepted exactly when the location was readable, carried no
   * error code and carried a key; the key it is accepted under is never empty.
   */
  function Classify(response: Response): (o: Outcome)
    ensures o.Accepted? <==> response.Redirected? && !Truthy(response.errorCode) && Truthy(response.key)
    ensures o.Accepted? ==> o.key == response.key.value && o.key != ""
  {
    match response
    case Unreadable => Rejected(UNREADABLE_MESSAGE)
    case Redirected(key, errorCode) =>
      if Truthy(errorCode) then Rejected(FAILED_PREFIX + errorCode.value)
      else if Truthy(key) then Accepted(key.value)
      else Rejected(NO_KEY_MESSAGE)
  }

  predicate StartsWithFailed(message: string) {
    |FAILED_PREFIX| <= |message| && message[..|FAILED_PREFIX|] == FAILED_PREFIX
  }

  /** Every message shown for a failed upload begins with `File upload failed: `. */
  lemma RejectionsArePrefixed(response: Response)
    ensures Classify(response).Rejected? ==> StartsWithFailed(Classify(response).message)
  {
    match response
    case Unreadable =>
      assert UNREADABLE_MESSAGE[..|FAILED_PREFIX|] == FAILED_PREFIX;
    case Redirected(key, errorCode) =>
      if Truthy(errorCode) {
        assert (FAILED_PREFIX + errorCode.value)[..|FAILED_PREFIX|] == FAILED_PREFIX;
      } else {
        assert NO_KEY_MESSAGE[..|FAILED_PREFIX|] == FAILED_PREFIX;
      }
  }

  /** A non-empty error code wins over any key, and its text is shown after the fixed prefix. */
  lemma ErrorCodeWins(key: Option<string>, code: string)
    requires code != ""
    ensures Classify(Redirected(key, Some(code))) == Rejected(FAILED_PREFIX + code)
  {
  }

  /** An empty parameter is treated exactly as a missing one. */
  lemma EmptyMeansAbsent(key: Option<string>, errorCode: Option<string>)
    ensures Classify(Redirected(key, Some(""))) == Classify(Redirected(key, None))
    ensures Classify(Redirected(Some(""), errorCode)) == Classify(Redirected(None, errorCode))
  {
  }

  /** With neither parameter, or an unreadable location, the message is one of the two fixed texts. */
  lemma FixedMessages(response: Response)
    requires response.Unreadable? || (!Truthy(response.key) && !Truthy(response.errorCode))
    ensures Classify(response) == Rejected(if response.Unreadable? then UNREADABLE_MESSAGE else NO_KEY_MESSAGE)
  {
  }
}
