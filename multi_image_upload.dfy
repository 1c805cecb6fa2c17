/** The multi-image picker (src/components/ui/multi-image-upload.tsx): a selection is
    refused as a whole when it would pass `maxFiles`; otherwise every file is checked in
    turn, invalid ones are skipped, valid ones are uploaded, and on success the new URLs
    are appended to the current list. `upload(i)` is the upload's answer for the i-th
    selected file (`None` when it throws). */
module MultiImageUpload {
  import opened Wrappers
  import opened Uploads
  import Seqs

  /** The `maxFiles` prop's default. */
  const DefaultMaxFiles: int := 5

  datatype Outcome =
    | NoSelection            // `!files || files.length === 0`: return at once
    | Refused                // over the cap: no upload, no `onChange`
    | Failed                 // an upload threw: no `onChange`, earlier URLs dropped
    | Changed(urls: seq<string>)

  /** The URLs the loop has pushed after looking at the first `k` files, or `None` once an
      upload has thrown. */
  function Pushed(files: seq<File>, upload: nat -> Option<string>, k: nat): Option<seq<string>>
    requires k <= |files|
  {
    if k == 0 then Some([])
    else
      match Pushed(files, upload, k - 1)
      case None => None
      case Some(urls) =>
        if !AcceptedImage(files[k - 1]) then Some(urls)
        else if upload(k - 1).None? then None
        else Some(urls + [upload(k - 1).value])
  }

  /** The number of files among the first `k` that pass the checks. */
  function AcceptedCount(files: seq<File>, k: nat): nat
    requires k <= |files|
  {
    if k == 0 then 0 else AcceptedCount(files, k - 1) + (if AcceptedImage(files[k - 1]) then 1 else 0)
  }

  /** `handleFileChange`. */
  method HandleFileChange(value: seq<string>, files: seq<File>, maxFiles: int, upload: nat -> Option<string>)
    returns (r: Outcome)
    ensures files == [] ==> r == NoSelection
    ensures files != [] && |value| + |files| > maxFiles ==> r == Refused
    ensures files != [] && |value| + |files| <= maxFiles ==>
              match Pushed(files, upload, |files|)
              case None => r == Failed
              case Some(urls) => r == Changed(value + urls)
  {
    if |files| == 0 {
      return NoSelection;
    }
    if |value| + |files| > maxFiles {
      return Refused;
    }
    var newUrls: seq<string> := [];
    var i := 0;
    while i < |files|
      invariant 0 <= i <= |files|
      invariant Pushed(files, upload, i) == Some(newUrls)
    {
      var file := files[i];
      if !IsImage(file) {
        i := i + 1;
        continue;
      }
      if !SmallEnough(file) {
        i := i + 1;
        continue;
      }
      var url := upload(i);
      if url.None? {
        FailedStaysFailed(files, upload, i + 1, |files|);
        return Failed;
      }
      newUrls := newUrls + [url.value];
      i := i + 1;
    }
    return Changed(value + newUrls);
  }

  /** Once an upload has thrown, the outcome stays a failure. */
  lemma {:induction false} FailedStaysFailed(files: seq<File>, upload: nat -> Option<string>, k: nat, n: nat)
    requires k <= n <= |files| && Pushed(files, upload, k).None?
    ensures Pushed(files, upload, n).None?
    decreases n - k
  {
    if k < n {
      FailedStaysFailed(files, upload, k + 1, n);
    }
  }

  /** One new URL per accepted file, in selection order; rejected files are never sent. */
  lemma {:induction false} PushedSpec(files: seq<File>, upload: nat -> Option<string>, k: nat)
    requires k <= |files| && Pushed(files, upload, k).Some?
    ensures |Pushed(files, upload, k).value| == AcceptedCount(files, k) <= k
  {
    if k > 0 {
      PushedSpec(files, upload, k - 1);
    }
  }

  /** The result never depends on what an upload of a rejected file would have answered:
      such files are never uploaded. */
  lemma {:induction false} RejectedNeverUploaded(files: seq<File>, u1: nat -> Option<string>, u2: nat -> Option<string>, k: nat)
    requires k <= |files|
    requires forall i :: 0 <= i < |files| && AcceptedImage(files[i]) ==> u1(i) == u2(i)
    ensures Pushed(files, u1, k) == Pushed(files, u2, k)
  {
    if k > 0 {
      RejectedNeverUploaded(files, u1, u2, k - 1);
    }
  }

  /** A successful change keeps the current URLs in front and never holds more than
      `maxFiles` URLs. */
  lemma ChangedWithinCap(value: seq<string>, files: seq<File>, maxFiles: int, upload: nat -> Option<string>)
    requires files != [] && |value| + |files| <= maxFiles
    requires Pushed(files, upload, |files|).Some?
    ensures var urls := value + Pushed(files, upload, |files|).value;
            |urls| <= maxFiles && urls[..|value|] == value
  {
    PushedSpec(files, upload, |files|);
  }

  /** `value.length < maxFiles`. */
  predicate ShowAddButton(value: seq<string>, maxFiles: int) {
    |value| < maxFiles
  }

  /** `removeImage` (`value.filter((_, i) => i !== index)`, which is `Seqs.RemoveAt`) on
      a full list brings the add button back. */
  lemma RemoveShowsAddButton(value: seq<string>, maxFiles: int, index: int)
    requires |value| == maxFiles && 0 <= index < |value|
    ensures ShowAddButton(Seqs.RemoveAt(value, index), maxFiles)
  {
  }
}
