/** The enhance page: the AI enhancement run on the profile's template
    text, the classification of a PDF download's outcome into the error
    shown, accepting the enhanced text, and the preview shown meanwhile.
    Network calls are replaced by their outcomes, given as parameters. */
module EnhancePage {
  import opened Js
  import opened Strings

  // ===========================================================================
  // Enhancement
  // ===========================================================================

  /** The page's enhancement state: the enhanced text (`""` when none) and
      the error shown, if any. */
  datatype EnhanceView = EnhanceView(enhanced: string, error: Option<string>)

  const NothingToEnhance: string := "No profile text available to enhance."
  const EnhanceFailed: string := "Failed to enhance profile"
  const EnhanceThrew: string := "An unexpected error occurred"

  /** The reply of the enhancement call: `success`, `data` and `error`
      (`""` when missing), or a thrown error's message. */
  datatype EnhanceReply = EnhanceResult(success: bool, data: string, error: string) | EnhanceError(message: string)

  /** Whether `runEnhance` sends a request for this template text. */
  predicate HasText(templateText: string) {
    Trim(templateText) != []
  }

  /** `runEnhance`: without text only the error is set; otherwise the reply
      decides the enhanced text and the error. */
  function RunEnhance(v: EnhanceView, templateText: string, reply: EnhanceReply): (r: EnhanceView)
    ensures !HasText(templateText) ==> r == v.(error := Some(NothingToEnhance))
    ensures HasText(templateText) && reply.EnhanceResult? && reply.success ==>
              r == EnhanceView(reply.data, None)
    ensures HasText(templateText) && !(reply.EnhanceResult? && reply.success) ==>
              r.enhanced == [] && r.error.Some? && r.error.value != []
    ensures HasText(templateText) && reply.EnhanceResult? && !reply.success ==>
              && (reply.error != [] ==> r.error == Some(reply.error))
              && (reply.error == [] ==> r.error == Some(EnhanceFailed))
    ensures HasText(templateText) && reply.EnhanceError? ==>
              && (reply.message != [] ==> r.error == Some(reply.message))
              && (reply.message == [] ==> r.error == Some(EnhanceThrew))
  {
    if !HasText(templateText) then v.(error := Some(NothingToEnhance))
    else match reply
      case EnhanceResult(success, data, error) =>
        if success then EnhanceView(data, None) else EnhanceView("", Some(Or(error, EnhanceFailed)))
      case EnhanceError(message) => EnhanceView("", Some(Or(message, EnhanceThrew)))
  }

  /** Rejecting clears the enhanced text and the error and runs the
      enhancement again: the earlier view leaves no trace, and without
      text the old enhanced text is gone too. */
  function Reject(v: EnhanceView, templateText: string, reply: EnhanceReply): (r: EnhanceView)
    ensures !HasText(templateText) ==> r == EnhanceView("", Some(NothingToEnhance))
    ensures HasText(templateText) ==> r == RunEnhance(v, templateText, reply)
  {
    RunEnhance(EnhanceView("", None), templateText, reply)
  }

  /** The preview: the enhanced text if there is one, else the template
      text the page was opened with. */
  function PreviewText(enhanced: string, templateTextFromData: string): (r: string)
    ensures enhanced != [] ==> r == enhanced
    ensures enhanced == [] ==> r == templateTextFromData
  {
    Or(enhanced, templateTextFromData)
  }

  /** After an enhancement the preview shows the enhanced text when it
      succeeded with some text, and falls back to the original text when it
      failed. */
  lemma PreviewAfterEnhance(v: EnhanceView, templateText: string, reply: EnhanceReply, fromData: string)
    requires HasText(templateText)
    ensures reply.EnhanceResult? && reply.success && reply.data != [] ==>
              PreviewText(RunEnhance(v, templateText, reply).enhanced, fromData) == reply.data
    ensures !(reply.EnhanceResult? && reply.success) ==>
              PreviewText(RunEnhance(v, templateText, reply).enhanced, fromData) == fromData
  {
  }

  // ===========================================================================
  // Download
  // ===========================================================================

  /** A JSON error body: its `message` and `error` (`""` when missing). */
  datatype ErrorBody = ErrorBody(message: string, error: string)

  /** The outcome of the download request: a response with its content-type
      headers (`content-type`, then `Content-Type`; `""` when missing), its
      body as text and that text parsed as JSON (`None` when it does not
      parse); an HTTP error with its status and body; a request that got no
      response; or any other error with its message. */
  datatype DownloadOutcome =
    | Responded(contentType: string, contentTypeAlt: string, text: string, json: Option<ErrorBody>)
    | HttpError(status: nat, body: Option<ErrorBody>)
    | NoResponse
    | OtherError(message: string)

  /** What `handleDownload` ends with: the file saved, or the error shown. */
  datatype Download = Downloaded | DownloadFailed(message: string)

  const MissingId: string := "Profile ID is required to download PDF."
  const ServerReturnedError: string := "Server returned an error"
  const DownloadFailedText: string := "Failed to download PDF."
  const LogInAgain: string := "Authentication required. Please log in again."
  const ProfileNotFound: string := "Profile not found."
  const ServerError: string := "Server error. Please try again later."
  const CannotConnect: string :=
    "Unable to connect to server. Please check your connection and ensure the server is running."

  /** The content type checked: the first non-empty header. */
  function ContentType(o: DownloadOutcome): string
    requires o.Responded?
  {
    Or(Or(o.contentType, o.contentTypeAlt), "")
  }

  /** The message of the error thrown for a JSON response. */
  function JsonErrorMessage(text: string, json: Option<ErrorBody>): string {
    match json
    case Some(b) => Or(Or(b.message, b.error), ServerReturnedError)
    case None => Or(text, ServerReturnedError)
  }

  /** The message for an HTTP error status. */
  function StatusMessage(status: nat, body: Option<ErrorBody>): (r: string)
    ensures status == 401 ==> r == LogInAgain
    ensures status == 404 ==> r == ProfileNotFound
    ensures status == 500 ==> r == ServerError
  {
    if status == 401 then LogInAgain
    else if status == 404 then ProfileNotFound
    else if status == 500 then ServerError
    else
      var generic := DownloadFailedText + " Server error (" + NatToString(status) + ").";
      if body.Some? then Or(Or(body.value.message, body.value.error), generic) else generic
  }

  /** `handleDownload`: a response is saved as the PDF unless its content
      type marks it as JSON or as something other than a PDF; an error
      thrown inside, or by the request, becomes the message shown. */
  function HandleDownload(profileId: string, o: DownloadOutcome): (r: Download)
    ensures profileId == [] ==> r == DownloadFailed(MissingId)
    ensures r.DownloadFailed? ==> r.message != []
    ensures profileId != [] && o.NoResponse? ==> r == DownloadFailed(CannotConnect)
    ensures profileId != [] && o.Responded? && Contains(ContentType(o), "application/json") ==>
              r == DownloadFailed(JsonErrorMessage(o.text, o.json))
    ensures profileId != [] && o.Responded? && !Contains(ContentType(o), "application/json")
            && ContentType(o) != [] && !Contains(ContentType(o), "pdf") ==>
              && (o.text != [] ==> r == DownloadFailed(o.text))
              && (o.text == [] ==> r == DownloadFailed(ServerReturnedError))
    ensures profileId != [] && o.HttpError? ==> r == DownloadFailed(StatusMessage(o.status, o.body))
    ensures profileId != [] && o.OtherError? ==>
              && (o.message != [] ==> r == DownloadFailed(o.message))
              && (o.message == [] ==> r == DownloadFailed(DownloadFailedText))
  {
    if profileId == [] then DownloadFailed(MissingId)
    else match o
      case Responded(_, _, text, json) =>
        var ct := ContentType(o);
        assert Contains(ct, "application/pdf") ==> Contains(ct, "pdf") by {
          if Contains(ct, "application/pdf") {
            PdfInApplicationPdf(ct);
          }
        }
        if Contains(ct, "application/json") then DownloadFailed(JsonErrorMessage(text, json))
        else if ct != [] && !Contains(ct, "pdf") && !Contains(ct, "application/pdf") then
          DownloadFailed(Or(text, ServerReturnedError))
        else Downloaded
      case HttpError(status, body) => DownloadFailed(StatusMessage(status, body))
      case NoResponse => DownloadFailed(CannotConnect)
      case OtherError(message) => DownloadFailed(Or(message, DownloadFailedText))
  }

  /** An occurrence of `application/pdf` is an occurrence of `pdf`. */
  lemma PdfInApplicationPdf(ct: string)
    requires Contains(ct, "application/pdf")
    ensures Contains(ct, "pdf")
  {
    var k := IndexOf(ct, "application/pdf");
    assert ct[k + 12..k + 15] == ct[k..k + 15][12..15];
    assert OccursAt(ct, "pdf", k + 12);
  }

  /** A response is saved exactly when its content type is empty or names
      a PDF without naming JSON; the separate `application/pdf` test adds
      nothing to the `pdf` one. */
  lemma DownloadedIff(profileId: string, o: DownloadOutcome)
    ensures HandleDownload(profileId, o) == Downloaded <==>
              profileId != [] && o.Responded? && !Contains(ContentType(o), "application/json")
              && (ContentType(o) == [] || Contains(ContentType(o), "pdf"))
  {
    if o.Responded? && Contains(ContentType(o), "application/pdf") {
      PdfInApplicationPdf(ContentType(o));
    }
  }

  /** A JSON response shows its `message`, else its `error`, else the
      default text; a body that does not parse shows its text. */
  lemma JsonResponseMessage(profileId: string, ct: string, alt: string, text: string, json: Option<ErrorBody>)
    requires profileId != [] && Contains(Or(Or(ct, alt), ""), "application/json")
    ensures var r := HandleDownload(profileId, Responded(ct, alt, text, json));
            && (json.Some? && json.value.message != [] ==> r == DownloadFailed(json.value.message))
            && (json.Some? && json.value.message == [] && json.value.error != [] ==> r == DownloadFailed(json.value.error))
            && (json.Some? && json.value.message == [] && json.value.error == [] ==> r == DownloadFailed(ServerReturnedError))
            && (json.None? && text != [] ==> r == DownloadFailed(text))
  {
  }

  /** The digits of a number, found after the last `(` of a message. */
  function StatusIn(m: string): string {
    var k := LastIndexOfChar(m, '(');
    if k < 0 || |m| < k + 3 then [] else m[k + 1..|m| - 2]
  }

  /** Any other status without a body message is reported with the
      status, which can be read back from the message. */
  lemma OtherStatusReadBack(status: nat)
    requires status != 401 && status != 404 && status != 500
    ensures var m := StatusMessage(status, None);
            var digits := StatusIn(m);
            && (forall i :: 0 <= i < |digits| ==> IsDigit(digits[i]))
            && DigitsValue(digits) == status
  {
    var n := NatToString(status);
    var m := StatusMessage(status, None);
    var prefix := DownloadFailedText + " Server error (";
    assert m == prefix + n + ").";
    var k := LastIndexOfChar(m, '(');
    assert m[|prefix| - 1] == '(';
    assert forall j :: |prefix| <= j < |m| ==> m[j] != '(' by {
      forall j | |prefix| <= j < |m|
        ensures m[j] != '('
      {
        if j < |prefix| + |n| {
          assert m[j] == n[j - |prefix|];
        } else {
          assert m[j] == ")."[j - |prefix| - |n|];
        }
      }
    }
    assert k == |prefix| - 1;
    assert m[k + 1..|m| - 2] == n;
    NatToStringRoundTrip(status);
  }

  // ===========================================================================
  // Accepting
  // ===========================================================================

  /** The reply of reloading the profile after saving: the reloaded record
      (`data.data`, else `data`; `None` when neither), or a thrown error
      with the response's `message` (`""` when missing). */
  datatype ReloadReply = Reloaded(record: Option<map<string, Value>>) | SaveThrew(message: string)

  /** What accepting ends with: the parent is handed the updated record
      (and the success popup shows), or an error notice. */
  datatype Accept = Accepted(updated: map<string, Value>) | AcceptError(text: string)

  const NotAvailable: string := "Enhanced profile is not available."
  const ReloadFailed: string := "Failed to load updated profile."
  const SaveFailed: string := "Failed to save enhanced profile. Please try again."

  /** Whether accepting may proceed to the save request. */
  predicate CanAccept(profileId: string, enhanced: string) {
    profileId != [] && enhanced != []
  }

  /** `handleProfileAccepted`. */
  function AcceptProfile(profileId: string, enhanced: string, reply: ReloadReply): (r: Accept)
    ensures !CanAccept(profileId, enhanced) ==> r == AcceptError(NotAvailable)
    ensures r.Accepted? <==> CanAccept(profileId, enhanced) && reply.Reloaded? && reply.record.Some?
    ensures r.Accepted? ==>
              && r.updated.Keys == reply.record.value.Keys + {"templateText"}
              && r.updated["templateText"] == Str(enhanced)
              && forall k :: k in reply.record.value && k != "templateText" ==> r.updated[k] == reply.record.value[k]
    ensures r.AcceptError? ==> r.text != []
    ensures CanAccept(profileId, enhanced) && reply.Reloaded? && reply.record.None? ==>
              r == AcceptError(ReloadFailed)
    ensures CanAccept(profileId, enhanced) && reply.SaveThrew? ==>
              && (reply.message != [] ==> r == AcceptError(reply.message))
              && (reply.message == [] ==> r == AcceptError(SaveFailed))
  {
    if !CanAccept(profileId, enhanced) then AcceptError(NotAvailable)
    else match reply
      case Reloaded(record) =>
        if record.Some? then Accepted(record.value["templateText" := Str(enhanced)]) else AcceptError(ReloadFailed)
      case SaveThrew(message) => AcceptError(Or(message, SaveFailed))
  }
}
