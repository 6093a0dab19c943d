/** The controller's closed table from media type to file-name extension. */
module Mime {
  import opened Wrappers

  /** The media types the service stores; the comparison is exact and case-sensitive. */
  const SupportedMediaTypes: set<string> := {"image/png", "image/jpg", "image/jpeg", "image/gif"}

  /** The extensions a stored file can get. */
  const Extensions: set<string> := {".png", ".jpg", ".gif"}

  /**
   * `GetExtensionFromMimeType`: png, jpg/jpeg and gif map to their extension,
   * anything else (the empty string and other casings included) throws
   * `InvalidOperationException`.
   */
  function GetExtension(mimeType: string): (r: Result<string>)
    ensures r.Failure? ==> r.error == InvalidOperation
  {
    if mimeType == "image/png" then Success(".png")
    else if mimeType == "image/jpg" || mimeType == "image/jpeg" then Success(".jpg")
    else if mimeType == "image/gif" then Success(".gif")
    else Failure(InvalidOperation)
  }

  /** The table in full: which media types succeed, and with which extension. */
  lemma ExtensionTable(mimeType: string)
    ensures var r := GetExtension(mimeType);
      && (r.Success? <==> mimeType in SupportedMediaTypes)
      && (r == Success(".png") <==> mimeType == "image/png")
      && (r == Success(".jpg") <==> mimeType == "image/jpg" || mimeType == "image/jpeg")
      && (r == Success(".gif") <==> mimeType == "image/gif")
      && (r.Success? ==> r.value in Extensions && |r.value| == 4 && r.value[0] == '.')
  {
  }

  /** Every supported media type is written in lower case, so any upper-case letter makes the lookup throw. */
  lemma {:induction false} UpperCaseIsUnsupported(mimeType: string, i: int)
    requires 0 <= i < |mimeType| && 'A' <= mimeType[i] <= 'Z'
    ensures GetExtension(mimeType) == Failure(InvalidOperation)
  {
  }
}
