/** The single image picker (src/components/ui/image-upload.tsx): a chain of guards in
    front of one upload, whose URL becomes the new value; and the clear button. The
    upload's answer is the parameter `upload` (`None` when it throws). */
module ImageUpload {
  import opened Wrappers
  import opened Uploads

  datatype Outcome =
    | NoFile          // nothing selected: return at once
    | NotImage        // "Please upload an image file"
    | TooLarge        // "Image size must be less than 5MB"
    | UploadFailed    // the upload threw; `onChange` is not called
    | Uploaded(url: string)

  /** `handleFileChange`: the URL is handed to `onChange` only for a selected image of at
      most 5 MB whose upload succeeds. */
  function HandleFileChange(file: Option<File>, upload: Option<string>): (r: Outcome)
    ensures r == NoFile <==> file.None?
    ensures r == NotImage <==> file.Some? && !IsImage(file.value)
    ensures r == TooLarge <==> file.Some? && IsImage(file.value) && !SmallEnough(file.value)
    ensures r.Uploaded? <==> file.Some? && AcceptedImage(file.value) && upload.Some?
    ensures r.Uploaded? ==> r.url == upload.value
    ensures r == UploadFailed <==> file.Some? && AcceptedImage(file.value) && upload.None?
  {
    if file.None? then NoFile
    else if !IsImage(file.value) then NotImage
    else if !SmallEnough(file.value) then TooLarge
    else if upload.None? then UploadFailed
    else Uploaded(upload.value)
  }

  /** The value after a change: the new URL, or the old value when nothing was uploaded. */
  function ValueAfter(value: string, r: Outcome): string {
    if r.Uploaded? then r.url else value
  }

  /** `clearImage`: `onChange("")`. */
  function ClearImage(): (v: string)
    ensures !ShowPreview(v)
  {
    ""
  }

  /** `{value ? <preview/> : <upload button/>}`. */
  predicate ShowPreview(value: string) {
    value != ""
  }

  /** A refused or failed selection leaves the value, and so the preview, as it was. */
  lemma RefusalKeepsValue(value: string, file: Option<File>, upload: Option<string>)
    requires !HandleFileChange(file, upload).Uploaded?
    ensures ValueAfter(value, HandleFileChange(file, upload)) == value
  {
  }

  /** A 5 MB image is uploaded and a 5 MB + 1 byte image is refused for its size. */
  lemma LimitInclusive(name: string, url: string)
    ensures HandleFileChange(Some(File(name, "image/png", MaxImageBytes)), Some(url)) == Uploaded(url)
    ensures HandleFileChange(Some(File(name, "image/png", MaxImageBytes + 1)), Some(url)) == TooLarge
  {
    assert Text.StartsWith("image/png", "image/");
  }
}
