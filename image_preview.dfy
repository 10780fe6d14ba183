/** The image source chosen by `ImagePreview` (`src/components/editor/ImagePreview.tsx`):
    the stored file's URL, or a `data:` URL in the syntax of RFC 2397,
    section 3, built from the content. */
module ImagePreview {
  import opened Common
  import opened FileUtils

  const SvgMimeType := "image/svg+xml"

  /** The media type and parameter of an SVG `data:` URL. */
  const SvgHeader := "image/svg+xml;charset=utf-8"

  /** `mimeType || getMimeType(fileName) || "image/png"`: an empty string
      counts as absent. */
  function ActualMimeType(fileName: string, mimeType: Option<string>): (r: string)
    ensures r != []
    ensures mimeType.Some? && mimeType.value != [] ==> r == mimeType.value
    ensures (mimeType.None? || mimeType.value == []) && GetMimeType(fileName).Some? ==> r == GetMimeType(fileName).value
    ensures (mimeType.None? || mimeType.value == []) && GetMimeType(fileName).None? ==> r == "image/png"
  {
    if mimeType.Some? && mimeType.value != [] then mimeType.value
    else
      match GetMimeType(fileName)
      case Some(m) => if m != [] then m else "image/png"
      case None => "image/png"
  }

  /** The `src` attribute; `encodeUri` stands for `encodeURIComponent`. */
  function ImageSrc(fileName: string, content: string, mimeType: Option<string>,
                    fileUrl: Option<string>, encodeUri: string -> string): (r: string)
    ensures fileUrl.Some? && fileUrl.value != [] ==> r == fileUrl.value
    ensures (fileUrl.None? || fileUrl.value == []) ==> StartsWith(r, "data:")
  {
    var actual := ActualMimeType(fileName, mimeType);
    if fileUrl.Some? && fileUrl.value != [] then fileUrl.value
    else if actual == SvgMimeType then "data:" + SvgHeader + "," + encodeUri(content)
    else "data:" + (actual + ";base64") + "," + content
  }

  /** The parts of a `data:` URL (RFC 2397, section 3): the media type with
      its parameters, whether the data is base64, and the data. */
  datatype DataUrl = DataUrl(mediaType: string, base64: bool, data: string)

  function ParseDataUrl(url: string): (r: Option<DataUrl>)
    ensures r.Some? ==> StartsWith(url, "data:") && !HasChar(r.value.mediaType, ',')
  {
    if !StartsWith(url, "data:") then None
    else
      var rest := url[5..];
      var k := IndexOf(rest, ',');
      if k == -1 then None
      else
        var header := rest[..k];
        assert forall i :: 0 <= i < |header| ==> header[i] == rest[i];
        var base64 := EndsWith(header, ";base64");
        Some(DataUrl(if base64 then header[..|header| - 7] else header, base64, rest[k + 1..]))
  }

  // ---------------------------------------------------------------------
  // Properties

  lemma ParseDataUrlOf(header: string, data: string)
    requires !HasChar(header, ',')
    ensures ParseDataUrl("data:" + header + "," + data) ==
      Some(DataUrl(if EndsWith(header, ";base64") then header[..|header| - 7] else header,
                   EndsWith(header, ";base64"), data))
  {
    var url := "data:" + header + "," + data;
    var rest := url[5..];
    assert rest == header + "," + data;
    assert rest[|header|] == ',';
    forall j | 0 <= j < |header|
      ensures rest[j] != ','
    {
      assert rest[j] == header[j];
    }
    assert IndexOf(rest, ',') == |header|;
    assert rest[..|header|] == header && rest[|header| + 1..] == data;
  }

  /** Without a file URL, the source is a `data:` URL carrying the MIME type
      and the content: base64 as stored, or percent-encoded SVG text. */
  lemma ContentSourceIsDataUrl(fileName: string, content: string, mimeType: Option<string>,
                               encodeUri: string -> string)
    requires mimeType.None? || !HasChar(mimeType.value, ',')
    ensures var actual := ActualMimeType(fileName, mimeType);
      ParseDataUrl(ImageSrc(fileName, content, mimeType, None, encodeUri)) ==
        if actual == SvgMimeType then Some(DataUrl(SvgHeader, false, encodeUri(content)))
        else Some(DataUrl(actual, true, content))
  {
    var actual := ActualMimeType(fileName, mimeType);
    if actual == SvgMimeType {
      SvgHeaderParts();
      ParseDataUrlOf(SvgHeader, encodeUri(content));
    } else {
      MimeTypesHaveNoComma(fileName);
      Base64Header(actual);
      ParseDataUrlOf(actual + ";base64", content);
    }
  }

  lemma SvgHeaderParts()
    ensures !HasChar(SvgHeader, ',') && !EndsWith(SvgHeader, ";base64")
  {
    assert ',' !in SvgHeader;
    assert forall j :: 0 <= j < |SvgHeader| ==> SvgHeader[j] in SvgHeader;
    assert SvgHeader[|SvgHeader| - 1] == '8';
  }

  lemma Base64Header(mime: string)
    requires !HasChar(mime, ',')
    ensures var header := mime + ";base64";
      !HasChar(header, ',') && EndsWith(header, ";base64") && header[..|header| - 7] == mime
  {
    var header := mime + ";base64";
    forall j | 0 <= j < |header|
      ensures header[j] != ','
    {
      if j < |mime| {
        assert header[j] == mime[j];
      }
    }
    assert header[|mime|..] == ";base64";
  }

  /** The MIME type taken from the extension is one of the table's, none of
      which contains a comma. */
  lemma MimeTypesHaveNoComma(fileName: string)
    ensures GetMimeType(fileName).Some? ==> !HasChar(GetMimeType(fileName).value, ',')
    ensures !HasChar("image/png", ',')
  {
    MimeTypesNoComma();
    HasCharIn("image/png", ',');
    if GetMimeType(fileName).Some? {
      HasCharIn(GetMimeType(fileName).value, ',');
    }
  }

  /** For a file known to be an image by its name, the fallback type is an
      image type. */
  lemma FallbackIsImageType(fileName: string)
    requires IsImageFile(fileName, None)
    ensures StartsWith(ActualMimeType(fileName, None), "image/")
  {
  }
}
