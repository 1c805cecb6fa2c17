/** The browser `File` as the upload components see it, and the image checks the two
    image pickers (src/components/ui/image-upload.tsx and
    src/components/ui/multi-image-upload.tsx) apply before uploading. */
module Uploads {
  import opened Text

  /** A selected file: its name, its MIME type (`file.type`) and its size in bytes. */
  datatype File = File(name: string, mimeType: string, size: nat)

  /** The 5 MB limit, `5 * 1024 * 1024` bytes. */
  const MaxImageBytes: nat := 5 * 1024 * 1024

  /** `file.type.startsWith("image/")`. */
  predicate IsImage(f: File) {
    StartsWith(f.mimeType, "image/")
  }

  /** `file.size > 5 * 1024 * 1024` is the refusal, so exactly 5 MB passes. */
  predicate SmallEnough(f: File) {
    f.size <= MaxImageBytes
  }

  /** A file both pickers go on to upload. */
  predicate AcceptedImage(f: File) {
    IsImage(f) && SmallEnough(f)
  }
}
