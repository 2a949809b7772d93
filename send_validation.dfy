/**
 * The rule guarding the message form: a submission made with the Send
 * button and a response that is blank once trimmed is stopped and an error
 * shown; a Send with text clears the error; any other submission (the Close
 * button, or no submitter) passes untouched.
 */
module SendValidation {
  import opened Wrappers

  /** The characters `String.prototype.trim` strips: ECMAScript WhiteSpace and LineTerminator. */
  predicate IsJsWhitespace(c: char) {
    || c == '\t' || c == '\U{000B}' || c == '\U{000C}' || c == ' ' || c == '\U{00A0}' || c == '\U{FEFF}'
    || c == '\U{1680}' || ('\U{2000}' <= c <= '\U{200A}') || c == '\U{202F}' || c == '\U{205F}' || c == '\U{3000}'
    || c == '\n' || c == '\r' || c == '\U{2028}' || c == '\U{2029}'
  }

  predicate AllWhitespace(s: string) {
    forall k :: 0 <= k < |s| ==> IsJsWhitespace(s[k])
  }

  /** The string with its leading whitespace removed. */
  function TrimStart(s: string): (r: string)
    ensures |r| <= |s| && r == s[|s| - |r|..]
    ensures AllWhitespace(s[..|s| - |r|])
    ensures r == [] || !IsJsWhitespace(r[0])
  {
    if s != [] && IsJsWhitespace(s[0]) then TrimStart(s[1..]) else s
  }

  /** The string with its trailing whitespace removed. */
  function TrimEnd(s: string): (r: string)
    ensures |r| <= |s| && r == s[..|r|]
    ensures AllWhitespace(s[|r|..])
    ensures r == [] || !IsJsWhitespace(r[|r| - 1])
  {
    if s != [] && IsJsWhitespace(s[|s| - 1]) then TrimEnd(s[..|s| - 1]) else s
  }

  /**
   * `String.prototype.trim`: the leading whitespace cut by TrimStart, then
   * the trailing whitespace cut by TrimEnd; what remains neither starts nor
   * ends with whitespace.
   */
  function Trim(s: string): (r: string)
    ensures |r| <= |s|
    ensures r == [] || (!IsJsWhitespace(r[0]) && !IsJsWhitespace(r[|r| - 1]))
  {
    var t := TrimStart(s);
    var r := TrimEnd(t);
    assert r != [] ==> r[0] == t[0];
    r
  }

  /** A value trims to the empty string exactly when every character of it is whitespace. */
  lemma TrimBlank(s: string)
    ensures Trim(s) == [] <==> AllWhitespace(s)
  {
    var t := TrimStart(s);
    assert forall k :: 0 <= k < |t| ==> t[k] == s[|s| - |t| + k];
    if Trim(s) == [] {
      assert s == s[..|s| - |t|] + t;
      assert AllWhitespace(t) by {
        assert t[|TrimEnd(t)|..] == t;
      }
    }
  }

  /**
   * The submit rule: the submission is stopped exactly when it was made with
   * the Send button and the response is blank. Anything else passes.
   */
  function Blocks(submitter: Option<string>, response: string): (b: bool)
    ensures b <==> submitter == Some("send") && AllWhitespace(response)
  {
    TrimBlank(response);
    submitter.Some? && submitter.value == "send" && Trim(response) == []
  }

  /** The response field, its form group, and the error paragraphs placed above the field. */
  class ResponseForm {
    /** `govuk-form-group--error` on the form group. */
    var groupError: bool
    /** `govuk-textarea--error` on the response field. */
    var fieldError: bool
    /** How many `response-error` paragraphs the page holds. */
    var errorElements: nat

    ghost predicate Valid()
      reads this
    {
      errorElements <= 1
    }

    /** The form as the server renders it, without any validation error. */
    constructor ()
      ensures Valid() && !groupError && !fieldError && errorElements == 0
    {
      groupError, fieldError, errorElements := false, false, 0;
    }

    /** Marks the group and the field, and adds the error paragraph only when none exists. */
    method DisplayValidationError()
      requires Valid()
      modifies this
      ensures Valid()
      ensures groupError && fieldError && errorElements == 1
    {
      groupError := true;
      fieldError := true;
      if errorElements == 0 {
        errorElements := 1;
      }
    }

    /** Unmarks the group and the field, and removes the error paragraph found by its id. */
    method ClearValidationError()
      requires Valid()
      modifies this
      ensures Valid()
      ensures !groupError && !fieldError && errorElements == 0
    {
      groupError := false;
      fieldError := false;
      if errorElements > 0 {
        errorElements := errorElements - 1;
      }
    }

    /**
     * The submit listener. It prevents the submission exactly when the rule
     * blocks it, and then shows the error; a Send that passes clears the
     * error; any other submitter leaves the page as it was.
     */
    method OnSubmit(submitter: Option<string>, response: string) returns (prevented: bool)
      requires Valid()
      modifies this
      ensures Valid()
      ensures prevented == Blocks(submitter, response)
      ensures prevented ==> groupError && fieldError && errorElements == 1
      ensures submitter == Some("send") && !prevented ==> !groupError && !fieldError && errorElements == 0
      ensures submitter != Some("send") ==> unchanged(this)
    {
      prevented := false;
      if submitter.Some? && submitter.value == "send" {
        var responseValue := Trim(response);
        if responseValue == [] {
          prevented := true;
          DisplayValidationError();
          return;
        }
        ClearValidationError();
      }
    }
  }
}
