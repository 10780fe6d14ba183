/** Extension-based file classification (`src/lib/file-utils.ts`). */
module FileUtils {
  import opened Common

  /** Extensions whose files are not edited as text. */
  const BinaryExtensions: seq<string> := [
    ".png", ".jpg", ".jpeg", ".gif", ".bmp", ".ico", ".webp", ".avif", ".tiff",
    ".mp3", ".wav", ".ogg", ".flac", ".aac",
    ".mp4", ".webm", ".avi", ".mov", ".mkv",
    ".woff", ".woff2", ".ttf", ".otf", ".eot",
    ".zip", ".rar", ".7z", ".tar", ".gz",
    ".pdf", ".exe", ".dll", ".so", ".dylib"
  ]

  /** Extensions shown with the image preview. */
  const ImageExtensions: seq<string> := [
    ".png", ".jpg", ".jpeg", ".gif", ".bmp", ".ico", ".webp", ".avif", ".svg"
  ]

  /** The MIME type of each known extension. */
  const MimeTypes: map<string, string> := map[
    ".png" := "image/png",
    ".jpg" := "image/jpeg",
    ".jpeg" := "image/jpeg",
    ".gif" := "image/gif",
    ".bmp" := "image/bmp",
    ".ico" := "image/x-icon",
    ".webp" := "image/webp",
    ".avif" := "image/avif",
    ".svg" := "image/svg+xml",
    ".mp3" := "audio/mpeg",
    ".wav" := "audio/wav",
    ".ogg" := "audio/ogg",
    ".mp4" := "video/mp4",
    ".webm" := "video/webm",
    ".woff" := "font/woff",
    ".woff2" := "font/woff2",
    ".ttf" := "font/ttf",
    ".otf" := "font/otf"
  ]

  /** `getFileExtension`: the lower-cased suffix from the last dot, or `""`
      when there is no dot or the only candidate dot opens the name. */
  function GetFileExtension(fileName: string): (r: string)
    ensures r == [] <==>
      !HasChar(fileName, '.') || (fileName[0] == '.' && !HasChar(fileName[1..], '.'))
    ensures r != [] ==>
      && |r| < |fileName|
      && r[0] == '.' && !HasChar(r[1..], '.')
      && r == ToLower(fileName[|fileName| - |r|..])
  {
    var dotIndex := LastIndexOf(fileName, '.');
    if dotIndex == -1 || dotIndex == 0 then ""
    else
      assert fileName[dotIndex..][1..] == fileName[dotIndex + 1..];
      assert HasChar(fileName[1..], '.') ==> dotIndex > 0 by {
        if HasChar(fileName[1..], '.') {
          var j :| 0 <= j < |fileName[1..]| && fileName[1..][j] == '.';
          assert fileName[j + 1] == '.';
        }
      }
      ToLower(fileName)[dotIndex..]
  }

  /** `isBinaryFile` */
  function IsBinaryFile(fileName: string): (r: bool)
    ensures r ==> GetFileExtension(fileName) != []
  {
    GetFileExtension(fileName) in BinaryExtensions
  }

  /** `isImageFile`: a MIME type starting with `image/` decides on its own;
      otherwise the extension does. */
  function IsImageFile(fileName: string, mimeType: Option<string>): (r: bool)
    ensures mimeType.Some? && StartsWith(mimeType.value, "image/") ==> r
    ensures GetFileExtension(fileName) in ImageExtensions ==> r
    ensures r ==> (mimeType.Some? && StartsWith(mimeType.value, "image/")) || GetFileExtension(fileName) in ImageExtensions
  {
    if mimeType.Some? && StartsWith(mimeType.value, "image/") then true
    else GetFileExtension(fileName) in ImageExtensions
  }

  /** `getMimeType`: `None` for an unknown or missing extension. */
  function GetMimeType(fileName: string): (r: Option<string>)
    ensures GetFileExtension(fileName) == [] ==> r.None?
    ensures GetFileExtension(fileName) in ImageExtensions ==> r.Some? && StartsWith(r.value, "image/")
    ensures r.Some? <==> GetFileExtension(fileName) in MimeTypes
    ensures r.Some? ==> r.value == MimeTypes[GetFileExtension(fileName)] && r.value != []
  {
    var ext := GetFileExtension(fileName);
    ImageMimeTypes();
    MimeTypesNonEmpty();
    if ext in MimeTypes then Some(MimeTypes[ext]) else None
  }

  /** Each image extension has an `image/...` MIME type; `""` has none. */
  lemma ImageMimeTypes()
    ensures forall e :: e in ImageExtensions ==> e in MimeTypes && StartsWith(MimeTypes[e], "image/")
    ensures [] !in MimeTypes
  {
    ImageExtensionsKnown();
    forall k | k in MimeTypes
      ensures k != []
    {
      assert |k| >= 1;
    }
  }

  lemma ImageExtensionsKnown()
    ensures forall i :: 0 <= i < |ImageExtensions| ==>
      ImageExtensions[i] in MimeTypes && StartsWith(MimeTypes[ImageExtensions[i]], "image/")
  {
    forall i | 0 <= i < |ImageExtensions|
      ensures ImageExtensions[i] in MimeTypes && StartsWith(MimeTypes[ImageExtensions[i]], "image/")
    {
      var e := ImageExtensions[i];
      var m := MimeTypes[e];
      assert m[..6] == "image/";
    }
  }

  /** No MIME type of the table is the empty string. */
  lemma MimeTypesNonEmpty()
    ensures forall k :: k in MimeTypes ==> MimeTypes[k] != []
  {
  }

  /** No MIME type of the table contains a comma. */
  lemma MimeTypesNoComma()
    ensures forall k :: k in MimeTypes ==> ',' !in MimeTypes[k]
  {
  }

  // ---------------------------------------------------------------------
  // Properties

  /** Every image extension but `.svg` is binary: SVG images are edited as text. */
  lemma ImagesAreBinaryExceptSvg(fileName: string)
    requires IsImageFile(fileName, None)
    ensures IsBinaryFile(fileName) <==> GetFileExtension(fileName) != ".svg"
  {
    var ext := GetFileExtension(fileName);
    var i :| 0 <= i < |ImageExtensions| && ImageExtensions[i] == ext;
    ImageTableHead();
    if i < 8 {
      assert ext == ImageExtensions[..8][i] == BinaryExtensions[i];
    } else {
      SvgNotBinary();
    }
  }

  /** The image extensions are the first eight binary ones, then `.svg`. */
  lemma ImageTableHead()
    ensures ImageExtensions[..8] == BinaryExtensions[..8]
    ensures ImageExtensions[8] == ".svg" && |ImageExtensions| == 9
    ensures ".svg" !in ImageExtensions[..8]
  {
    forall j | 0 <= j < 8
      ensures ImageExtensions[j] != ".svg"
    {
      var e := ImageExtensions[j];
      assert |e| != 4 || e[1] != 's';
    }
  }

  lemma SvgNotBinary()
    ensures ".svg" !in BinaryExtensions
  {
    forall j | 0 <= j < |BinaryExtensions|
      ensures BinaryExtensions[j] != ".svg"
    {
      var e := BinaryExtensions[j];
      assert |e| != 4 || e[1] != 's' || e[2] != 'v';
    }
  }

  lemma LowerCharIdempotent(c: char)
    ensures LowerChar(LowerChar(c)) == LowerChar(c)
  {
  }

  /** Lower-casing keeps the position of the last dot. */
  lemma {:induction false} LastDotUnderLower(s: string)
    ensures LastIndexOf(ToLower(s), '.') == LastIndexOf(s, '.')
  {
    if |s| > 0 {
      assert ToLower(s)[..|s| - 1] == ToLower(s[..|s| - 1]);
      LastDotUnderLower(s[..|s| - 1]);
    }
  }

  /** The extension, and hence every classification, ignores letter case. */
  lemma ExtensionIgnoresCase(fileName: string)
    ensures GetFileExtension(ToLower(fileName)) == GetFileExtension(fileName)
    ensures IsBinaryFile(ToLower(fileName)) == IsBinaryFile(fileName)
    ensures GetMimeType(ToLower(fileName)) == GetMimeType(fileName)
  {
    LastDotUnderLower(fileName);
    forall i | 0 <= i < |fileName|
      ensures ToLower(ToLower(fileName))[i] == ToLower(fileName)[i]
    {
      LowerCharIdempotent(fileName[i]);
    }
    assert ToLower(ToLower(fileName)) == ToLower(fileName);
  }
}
