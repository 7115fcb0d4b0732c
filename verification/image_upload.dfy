/** The profile-picture control (`ProfileImageUpload`): checking a chosen file before
    it is uploaded, and the state the control keeps around the upload. Reading the file
    for the preview and the upload itself are outside this model; the upload's answer
    arrives as an event. */
module ImageUpload {
  import opened Common
  import opened Strings

  /** The largest accepted file, five mebibytes. */
  const MaxBytes: nat := 5 * 1024 * 1024

  /** The chosen file as far as the checks look at it. */
  datatype FileInfo = FileInfo(mimeType: string, size: nat)

  /** Why a chosen file is refused. */
  datatype Refusal = NotAnImage | TooLarge

  /** What choosing a file leads to. */
  datatype SelectOutcome = NothingChosen | Refused(reason: Refusal) | Upload(file: FileInfo)

  /** `handleFileSelect`: no file does nothing; a type outside `image/` is refused
      first, then a file over the size limit; any other file is uploaded once. */
  function HandleFileSelect(file: Option<FileInfo>): (r: SelectOutcome)
    ensures r == NothingChosen <==> file.None?
    ensures r == Refused(NotAnImage) <==> file.Some? && !StartsWith(file.value.mimeType, "image/")
    ensures r == Refused(TooLarge) <==>
      file.Some? && StartsWith(file.value.mimeType, "image/") && file.value.size > MaxBytes
    ensures r.Upload? <==>
      file.Some? && StartsWith(file.value.mimeType, "image/") && file.value.size <= MaxBytes
    ensures r.Upload? ==> r.file == file.value
  {
    match file
    case None => NothingChosen
    case Some(f) =>
      if !StartsWith(f.mimeType, "image/") then Refused(NotAnImage)
      else if f.size > MaxBytes then Refused(TooLarge)
      else Upload(f)
  }

  /** The limit is inclusive: a file of exactly five mebibytes goes up, one byte more
      is refused. */
  lemma SizeBoundary(mimeType: string)
    requires StartsWith(mimeType, "image/")
    ensures HandleFileSelect(Some(FileInfo(mimeType, 5242880))).Upload?
    ensures HandleFileSelect(Some(FileInfo(mimeType, 5242881))) == Refused(TooLarge)
  {
  }

  /** The control's state. */
  datatype UploadState = UploadState(previewUrl: Option<string>, uploadedImageId: Option<int>,
                                     currentImageUrl: Option<string>)

  /** Whether a step calls `onImageChange`, and with what. */
  datatype Report = Silent | Reported(imageId: Option<int>)

  datatype Step = Step(state: UploadState, report: Report)

  /** The upload's success: the new id is kept and reported, and the previously shown
      stored picture is dropped; the preview stays. */
  function OnUploadSuccess(s: UploadState, imageId: int): (r: Step)
    ensures r.state.uploadedImageId == Some(imageId) && r.report == Reported(Some(imageId))
    ensures r.state.currentImageUrl.None? && r.state.previewUrl == s.previewUrl
  {
    Step(s.(uploadedImageId := Some(imageId), currentImageUrl := None), Reported(Some(imageId)))
  }

  /** The upload's failure: only the preview goes; the parent hears nothing. */
  function OnUploadError(s: UploadState): (r: Step)
    ensures r.state.previewUrl.None? && r.report == Silent
    ensures r.state.uploadedImageId == s.uploadedImageId && r.state.currentImageUrl == s.currentImageUrl
  {
    Step(s.(previewUrl := None), Silent)
  }

  /** `handleRemoveImage`: preview, stored picture and id all cleared, and `null`
      reported. */
  function HandleRemoveImage(s: UploadState): (r: Step)
    ensures r.state.previewUrl.None? && r.state.uploadedImageId.None? && r.state.currentImageUrl.None?
    ensures r.report == Reported(None)
  {
    Step(UploadState(None, None, None), Reported(None))
  }

  /** Removing after a successful upload leaves nothing of it, and the parent's last
      word is `null`; removing twice is the same as removing once. */
  lemma RemoveUndoesUpload(s: UploadState, imageId: int)
    ensures HandleRemoveImage(OnUploadSuccess(s, imageId).state) == HandleRemoveImage(s)
    ensures HandleRemoveImage(HandleRemoveImage(s).state) == HandleRemoveImage(s)
  {
  }
}
