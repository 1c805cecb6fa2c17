/** The profile settings card (src/components/ProfileManagement.tsx): the avatar's
    fallback initials and `handleAvatarUpload`, which stores the chosen file under a
    path built from the profile id, a random number and the file's extension, then
    points the profile's `avatar_url` at it. `Math.random()`'s text, the storage and
    table answers and the public URL are parameters. */
module ProfileManagement {
  import opened Wrappers
  import opened Text
  import opened Uploads
  import Initials
  import StudentProfile

  /** `getInitials(profile?.name || "U")`. The name column holds text or nothing. */
  function AvatarFallback(name: StudentProfile.Value, up: string -> string): (r: string)
    requires name.Str? || !StudentProfile.Truthy(name)
    ensures |r| <= 2
    ensures !StudentProfile.Truthy(name) ==> r == Initials.SliceTo2(up("U"))
    ensures StudentProfile.Truthy(name) ==> r == Initials.GetInitials(name.s, up)
  {
    Initials.SingleWord("U", up);
    Initials.GetInitials(if StudentProfile.Truthy(name) then name.s else "U", up)
  }

  /** `file.name.split('.').pop()`: the text after the last '.', or the whole name. */
  function Extension(fileName: string): (ext: string)
    ensures '.' !in ext
    ensures exists k :: SuffixAfterSeparator(fileName, ext, '.', k)
    ensures '.' !in fileName ==> ext == fileName
  {
    LastPieceIsSuffix(fileName, '.');
    LastPiece(fileName, '.')
  }

  /** `avatars/${profile.id}-${Math.random()}.${fileExt}`. */
  function AvatarPath(profileId: string, random: string, fileName: string): (p: string)
    ensures StartsWith(p, "avatars/" + profileId + "-")
    ensures |p| > |Extension(fileName)| && p[|p| - |Extension(fileName)| - 1..] == "." + Extension(fileName)
  {
    "avatars/" + profileId + "-" + random + "." + Extension(fileName)
  }

  datatype Outcome =
    | NoFile                 // nothing chosen: return before any upload
    | UploadFailed           // the storage upload answered an error: "Error" toast
    | UpdateFailed           // the `profiles` update answered an error: "Error" toast
    | Updated(url: string)   // "Avatar updated successfully" and the page reloads the profile

  /** What one `handleAvatarUpload` does: the storage path written (if any), the
      `avatar_url` written to the profile (if any), the outcome, and the `uploading` flag
      afterwards. */
  datatype Attempt = Attempt(path: Option<string>, avatarUrl: Option<string>, outcome: Outcome, uploading: bool)

  /** `handleAvatarUpload`. `publicUrl(path)` is the storage's public URL for a path. */
  function HandleAvatarUpload(file: Option<File>, profileId: string, random: string, uploadOk: bool,
                              publicUrl: string -> string, updateOk: bool): (r: Attempt)
    ensures !r.uploading
    ensures r.outcome == NoFile <==> file.None?
    ensures file.None? ==> r.path.None? && r.avatarUrl.None?
    ensures file.Some? ==> r.path == Some(AvatarPath(profileId, random, file.value.name))
    ensures r.avatarUrl.Some? <==> file.Some? && uploadOk
    ensures r.avatarUrl.Some? ==> r.avatarUrl.value == publicUrl(r.path.value)
    ensures r.outcome.Updated? <==> file.Some? && uploadOk && updateOk
    ensures r.outcome.Updated? ==> r.avatarUrl == Some(r.outcome.url)
  {
    if file.None? then Attempt(None, None, NoFile, false)
    else
      var path := AvatarPath(profileId, random, file.value.name);
      if !uploadOk then Attempt(Some(path), None, UploadFailed, false)
      else
        var url := publicUrl(path);
        if !updateOk then Attempt(Some(path), Some(url), UpdateFailed, false)
        else Attempt(Some(path), Some(url), Updated(url), false)
  }

  /** A file named `stem.ext`, with no '.' in `ext`, is stored as `.ext` under the
      profile's prefix. */
  lemma ExtensionAfterLastDot(profileId: string, random: string, stem: string, ext: string)
    requires '.' !in ext
    ensures Extension(stem + "." + ext) == ext
    ensures AvatarPath(profileId, random, stem + "." + ext) == "avatars/" + profileId + "-" + random + "." + ext
  {
    assert stem + "." + ext == stem + ['.'] + ext;
    LastPieceAfter(stem, '.', ext);
  }

  /** Two uploads by the same profile with different random numbers, of files with the same
      extension, go to different paths. */
  lemma RandomSeparatesPaths(profileId: string, r1: string, r2: string, fileName: string)
    requires |r1| == |r2| && r1 != r2
    ensures AvatarPath(profileId, r1, fileName) != AvatarPath(profileId, r2, fileName)
  {
    var n := |"avatars/" + profileId + "-"|;
    var i :| 0 <= i < |r1| && r1[i] != r2[i];
    assert AvatarPath(profileId, r1, fileName)[n + i] == r1[i];
    assert AvatarPath(profileId, r2, fileName)[n + i] == r2[i];
  }
}
