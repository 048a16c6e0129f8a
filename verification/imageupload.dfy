/** The photo-upload form: the checks a chosen file must pass before it
    becomes the selected image, and the record handed on when the form is
    submitted. Reading a file as a data URL is not modelled; each file
    carries the data URL it reads as. */
module ImageUpload {
  import opened Js
  import opened Strings

  /** A chosen file: its MIME type, its size in bytes and the data URL the
      browser reads it as. */
  datatype File = File(mimeType: string, size: nat, dataUrl: string)

  /** The form's state: the selected image, the preview shown and the
      error shown. */
  datatype Form = Form(selected: Option<File>, preview: Option<string>, error: Option<string>)

  const Initial: Form := Form(None, None, None)

  const MaxBytes: nat := 5 * 1024 * 1024
  const NotAnImage: string := "Please select a valid image file"
  const TooLarge: string := "Image size should be less than 5MB"
  const NoImage: string := "Please select an image"

  /** A file the form takes: an `image/` MIME type and at most 5 MiB. */
  predicate Acceptable(f: File) {
    StartsWith(f.mimeType, "image/") && f.size <= MaxBytes
  }

  /** `handleImageChange` for the first chosen file, if any: a file that
      fails a check leaves the selection and the preview as they were and
      shows why; a file that passes clears the error and is selected. */
  function ImageChange(form: Form, chosen: Option<File>): (r: Form)
    ensures chosen.None? ==> r == form
    ensures chosen.Some? && !StartsWith(chosen.value.mimeType, "image/") ==>
              r == form.(error := Some(NotAnImage))
    ensures chosen.Some? && StartsWith(chosen.value.mimeType, "image/") && chosen.value.size > MaxBytes ==>
              r == form.(error := Some(TooLarge))
    ensures r.preview == form.preview
  {
    match chosen
    case None => form
    case Some(f) =>
      if !StartsWith(f.mimeType, "image/") then form.(error := Some(NotAnImage))
      else if f.size > MaxBytes then form.(error := Some(TooLarge))
      else form.(error := None, selected := Some(f))
  }

  /** A chosen file is selected exactly when it is acceptable, and then the
      error is cleared; otherwise the selection is unchanged and an error
      is shown. */
  lemma ImageChangeSelects(form: Form, f: File)
    ensures var r := ImageChange(form, Some(f));
            && (Acceptable(f) <==> r.selected == Some(f) && r.error.None?)
            && (!Acceptable(f) ==> r.selected == form.selected && r.error.Some?)
  {
  }

  /** The size limit is inclusive: exactly 5 MiB passes, one byte more
      does not. */
  lemma SizeLimitInclusive(mimeType: string, dataUrl: string)
    requires StartsWith(mimeType, "image/")
    ensures Acceptable(File(mimeType, 5242880, dataUrl))
    ensures !Acceptable(File(mimeType, 5242881, dataUrl))
  {
  }

  /** The preview once the reader has finished with the selected file. */
  function PreviewLoaded(form: Form): (r: Form)
    ensures form.selected.Some? ==> r.preview == Some(form.selected.value.dataUrl)
    ensures r.selected == form.selected && r.error == form.error
  {
    match form.selected
    case Some(f) => form.(preview := Some(f.dataUrl))
    case None => form
  }

  /** The files chosen in turn, each handled by `handleImageChange`. */
  function ChooseAll(form: Form, choices: seq<Option<File>>): Form
    decreases |choices|
  {
    if |choices| == 0 then form
    else ChooseAll(ImageChange(form, choices[0]), choices[1..])
  }

  /** The last acceptable file among the choices, or `initial` when there
      is none: a reference for the selection. */
  function LastAcceptable(choices: seq<Option<File>>, initial: Option<File>): (r: Option<File>)
    ensures r == initial || exists i :: 0 <= i < |choices| && choices[i] == r
    decreases |choices|
  {
    if |choices| == 0 then initial
    else
      var last := choices[|choices| - 1];
      if last.Some? && Acceptable(last.value) then last
      else LastAcceptable(choices[..|choices| - 1], initial)
  }

  lemma {:induction false} ChooseAllSnoc(form: Form, choices: seq<Option<File>>, c: Option<File>)
    ensures ChooseAll(form, choices + [c]) == ImageChange(ChooseAll(form, choices), c)
    decreases |choices|
  {
    if |choices| > 0 {
      assert (choices + [c])[1..] == choices[1..] + [c];
      ChooseAllSnoc(ImageChange(form, choices[0]), choices[1..], c);
    }
  }

  /** After any run of choices the selected image is the last acceptable
      file chosen, or the one selected before when none was acceptable. */
  lemma {:induction false} SelectedIsLastAcceptable(form: Form, choices: seq<Option<File>>)
    ensures ChooseAll(form, choices).selected == LastAcceptable(choices, form.selected)
    decreases |choices|
  {
    if |choices| > 0 {
      var init := choices[..|choices| - 1];
      var last := choices[|choices| - 1];
      assert choices == init + [last];
      SelectedIsLastAcceptable(form, init);
      ChooseAllSnoc(form, init, last);
    }
  }

  /** What submitting the form does: an error when no image is selected,
      otherwise the record handed to the parent. */
  datatype Submit = Refused(form: Form) | Submitted(record: map<string, Value>)

  /** `handleSubmit`: the profile record with `profileImage` set to the
      selected image's data URL. */
  function SubmitForm(form: Form, profileData: map<string, Value>): (r: Submit)
    ensures form.selected.None? <==> r.Refused?
    ensures r.Refused? ==> r.form == form.(error := Some(NoImage))
    ensures r.Submitted? ==>
              && r.record.Keys == profileData.Keys + {"profileImage"}
              && r.record["profileImage"] == Str(form.selected.value.dataUrl)
              && forall k :: k in profileData && k != "profileImage" ==> r.record[k] == profileData[k]
  {
    match form.selected
    case None => Refused(form.(error := Some(NoImage)))
    case Some(f) => Submitted(profileData["profileImage" := Str(f.dataUrl)])
  }

  /** A rejected file after an accepted one does not change what is
      submitted: the earlier image goes with the record. */
  lemma RejectedKeepsSubmission(form: Form, f: File, profileData: map<string, Value>)
    requires !Acceptable(f)
    ensures SubmitForm(ImageChange(form, Some(f)), profileData).Submitted? <==> form.selected.Some?
    ensures form.selected.Some? ==>
              SubmitForm(ImageChange(form, Some(f)), profileData) == SubmitForm(form, profileData)
  {
  }
}
