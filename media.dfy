/**
 * The permission guards that MediaService inlines in uploadMedia, downloadMedia and deleteMedia,
 * and the way it derives the stored file name from the uploaded one.
 */
module MediaGuards {
  import opened Wrappers
  import opened Errors
  import opened Permissions

  /** uploadMedia: a non-owner needs a record (else Unauthorized) that is not VIEW. */
  function UploadGuard(isOwner: bool, userExists: bool, record: Option<Level>): Outcome<Error>
  {
    if isOwner then Pass
    else if !userExists then Fail(NotFound)
    else if record.None? then Fail(Unauthorized)
    else if record.value == VIEW then Fail(Unauthorized)
    else Pass
  }

  /** downloadMedia: a non-owner needs any record. */
  function DownloadGuard(isOwner: bool, userExists: bool, record: Option<Level>): Outcome<Error>
  {
    if isOwner then Pass
    else if !userExists then Fail(NotFound)
    else if record.None? then Fail(Unauthorized)
    else Pass
  }

  /** deleteMedia: the same checks as uploadMedia. */
  function DeleteGuard(isOwner: bool, userExists: bool, record: Option<Level>): Outcome<Error>
  {
    if isOwner then Pass
    else if !userExists then Fail(NotFound)
    else if record.None? then Fail(Unauthorized)
    else if record.value == VIEW then Fail(Unauthorized)
    else Pass
  }

  /** The upload guard is the gate at EDIT, on every input. */
  lemma UploadIsEdit(isOwner: bool, userExists: bool, record: Option<Level>)
    ensures UploadGuard(isOwner, userExists, record) == CheckPermission(isOwner, userExists, record, EDIT)
  {
  }

  /** The download guard is the gate at VIEW, on every input. */
  lemma DownloadIsView(isOwner: bool, userExists: bool, record: Option<Level>)
    ensures DownloadGuard(isOwner, userExists, record) == CheckPermission(isOwner, userExists, record, VIEW)
  {
  }

  /** The delete guard is the upload guard, on every input. */
  lemma DeleteIsUpload(isOwner: bool, userExists: bool, record: Option<Level>)
    ensures DeleteGuard(isOwner, userExists, record) == UploadGuard(isOwner, userExists, record)
  {
  }

  /** The owner can always upload, download and delete media. */
  lemma OwnerMayAlwaysUseMedia(userExists: bool, record: Option<Level>)
    ensures UploadGuard(true, userExists, record) == Pass
    ensures DownloadGuard(true, userExists, record) == Pass
    ensures DeleteGuard(true, userExists, record) == Pass
  {
  }

  /** String.lastIndexOf(c): the position of the last occurrence of `c`, or None. */
  function LastIndexOf(s: string, c: char): (r: Option<nat>)
    ensures r.None? <==> c !in s
    ensures r.Some? ==> r.value < |s| && s[r.value] == c && c !in s[r.value + 1..]
  {
    if s == [] then None
    else if s[|s| - 1] == c then Some(|s| - 1)
    else
      var r := LastIndexOf(s[..|s| - 1], c);
      assert s == s[..|s| - 1] + [s[|s| - 1]];
      r
  }

  /**
   * The extension uploadMedia keeps: the suffix from the last '.' whenever the name contains a
   * '.', and "" when there is no '.' or no name at all.
   */
  function UploadExtension(originalFilename: Option<string>): (ext: string)
    ensures originalFilename.None? || '.' !in originalFilename.value ==> ext == ""
    ensures originalFilename.Some? && '.' in originalFilename.value ==>
              ext != [] && |ext| <= |originalFilename.value| && ext[0] == '.' && '.' !in ext[1..] &&
              originalFilename.value == originalFilename.value[..|originalFilename.value| - |ext|] + ext
  {
    if originalFilename.Some? && '.' in originalFilename.value then
      var name := originalFilename.value;
      var dot := LastIndexOf(name, '.').value;
      assert name == name[..dot] + name[dot..];
      name[dot..]
    else ""
  }

  /** The name under which uploadMedia stores the bytes: the generated UUID then the extension. */
  function StoredFilename(uuid: string, originalFilename: Option<string>): (r: string)
    ensures |r| >= |uuid| && r[..|uuid|] == uuid
    ensures r[|uuid|..] == UploadExtension(originalFilename)
  {
    uuid + UploadExtension(originalFilename)
  }

  /** A leading dot counts: ".bashrc" keeps the whole name as its extension. */
  lemma DotfileKeepsWholeName()
    ensures UploadExtension(Some(".bashrc")) == ".bashrc"
  {
    var name := ".bashrc";
    assert LastIndexOf(name, '.') == Some(0) by {
      assert name[0] == '.' && '.' !in name[1..];
    }
  }

  /** A trailing dot is an extension of its own: "a." keeps ".". */
  lemma TrailingDotIsExtension()
    ensures UploadExtension(Some("a.")) == "."
  {
  }
}
