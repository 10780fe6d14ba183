/** Upload limits and checks shared by client and server (`shared/upload-config.ts`). */
module UploadConfig {
  import opened Common
  import FileUtils

  /** `UPLOAD_CONFIG.maxFileSize`: 10 MiB. */
  const MaxFileSize: int := 10 * 1024 * 1024

  /** `UPLOAD_CONFIG.allowedTypes` */
  const AllowedTypes: seq<string> := [
    "image/png", "image/jpeg", "image/gif", "image/webp", "image/svg+xml",
    "image/bmp", "image/x-icon", "image/avif",
    "audio/mpeg", "audio/wav", "audio/ogg",
    "video/mp4", "video/webm",
    "font/woff", "font/woff2", "font/ttf", "font/otf",
    "application/pdf"
  ]

  /** `{ valid: true }` or `{ valid: false, error }`. */
  datatype Validation = Valid | Invalid(error: string)

  /** The size error, with the limit rendered in megabytes. */
  const SizeError: string := "文件大小超过限制 (最大 10MB)"

  /** The type error prefix; the rejected type follows it. */
  const TypeErrorPrefix: string := "不支持的文件类型: "

  /** `validateFileSize`: the limit itself is accepted. */
  function ValidateFileSize(size: int): (r: Validation)
    ensures r.Valid? <==> size <= 10485760
    ensures r.Invalid? ==> r.error == SizeError
  {
    if size > MaxFileSize then Invalid(SizeError) else Valid
  }

  /** `validateFileType`: exact membership; the error names the type. */
  function ValidateFileType(mimeType: string): (r: Validation)
    ensures r.Valid? <==> exists i :: 0 <= i < |AllowedTypes| && AllowedTypes[i] == mimeType
    ensures r.Invalid? ==> StartsWith(r.error, TypeErrorPrefix) && r.error[|TypeErrorPrefix|..] == mimeType
  {
    if mimeType !in AllowedTypes then Invalid(TypeErrorPrefix + mimeType) else Valid
  }

  /** The characters of the class `[a-zA-Z0-9._-]`. */
  predicate SafeChar(c: char)
  {
    ('a' <= c <= 'z') || ('A' <= c <= 'Z') || ('0' <= c <= '9') || c == '.' || c == '_' || c == '-'
  }

  /** `sanitizeFileName`: every character outside the class becomes `_`. */
  function SanitizeFileName(fileName: string): (r: string)
    ensures |r| == |fileName|
    ensures forall i :: 0 <= i < |r| ==> SafeChar(r[i])
    ensures forall i :: 0 <= i < |r| ==> if SafeChar(fileName[i]) then r[i] == fileName[i] else r[i] == '_'
    ensures !HasChar(r, '/')
  {
    seq(|fileName|, i requires 0 <= i < |fileName| => if SafeChar(fileName[i]) then fileName[i] else '_')
  }

  /** `validateFile`: the size is checked before the type. */
  function ValidateFile(size: int, mimeType: string): (r: Validation)
    ensures r.Valid? <==> size <= MaxFileSize && mimeType in AllowedTypes
    ensures size > MaxFileSize ==> r == Invalid(SizeError)
    ensures size <= MaxFileSize && mimeType !in AllowedTypes ==> r == Invalid(TypeErrorPrefix + mimeType)
  {
    var sizeResult := ValidateFileSize(size);
    if sizeResult.Invalid? then sizeResult
    else
      var typeResult := ValidateFileType(mimeType);
      if typeResult.Invalid? then typeResult
      else Valid
  }

  // ---------------------------------------------------------------------
  // Properties

  /** Sanitising twice is sanitising once. */
  lemma SanitizeIdempotent(fileName: string)
    ensures SanitizeFileName(SanitizeFileName(fileName)) == SanitizeFileName(fileName)
  {
  }

  /** A name made only of safe characters is left as it is. */
  lemma SanitizeKeepsSafeNames(fileName: string)
    requires forall i :: 0 <= i < |fileName| ==> SafeChar(fileName[i])
    ensures SanitizeFileName(fileName) == fileName
  {
  }

  /** Every MIME type the extension table yields passes the type check. */
  lemma KnownMimeTypesAllowed(fileName: string)
    requires FileUtils.GetMimeType(fileName).Some?
    ensures ValidateFileType(FileUtils.GetMimeType(fileName).value).Valid?
  {
    var m := FileUtils.GetMimeType(fileName).value;
    var e :| e in FileUtils.MimeTypes && FileUtils.MimeTypes[e] == m;
    assert m in AllowedTypes;
  }
}
