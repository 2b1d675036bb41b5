/**
 * File checks of src/utils/fileHelpers.ts: the accepted MIME type, the size limit,
 * and the step of `fileToBase64` that keeps the payload of a data URL
 * (`result.split(',')[1]`).
 */
module FileHelpers {
  import opened Wrappers

  const PdfMimeType: string := "application/pdf"
  const BytesPerMB: nat := 1024 * 1024
  const DefaultMaxSizeInMB: int := 10

  predicate IsValidFileType(mimeType: string) {
    mimeType == PdfMimeType
  }

  /** `file.size <= maxSizeInMB * 1024 * 1024`. */
  predicate IsValidFileSize(size: int, maxSizeInMB: int) {
    size <= maxSizeInMB * BytesPerMB
  }

  /** With the default limit, 10485760 bytes pass and one byte more fails. */
  lemma DefaultLimitBoundary()
    ensures IsValidFileSize(10485760, DefaultMaxSizeInMB)
    ensures !IsValidFileSize(10485761, DefaultMaxSizeInMB)
  {
  }

  /** A size accepted under a limit is accepted under every larger limit. */
  lemma SizeLimitMonotone(size: int, limit: int, larger: int)
    requires limit <= larger && IsValidFileSize(size, limit)
    ensures IsValidFileSize(size, larger)
  {
  }

  /** The text before the first comma (all of `s` when it has none). */
  function UpToComma(s: string): (r: string)
    ensures |r| <= |s| && r == s[..|r|] && ',' !in r
    ensures |r| < |s| ==> s[|r|] == ','
  {
    if s == [] || s[0] == ',' then [] else [s[0]] + UpToComma(s[1..])
  }

  /** The text after the first comma, if there is one. */
  function AfterComma(s: string): (r: Option<string>)
    ensures r.None? <==> ',' !in s
    ensures r.Some? ==> |r.value| < |s| && s == UpToComma(s) + "," + r.value
  {
    if s == [] then None
    else if s[0] == ',' then Some(s[1..])
    else match AfterComma(s[1..])
      case None => None
      case Some(rest) => Some(rest)
  }

  /**
   * `dataUrl.split(',')[1]`: the segment between the first and the second comma, or to the
   * end; `undefined` (None) when the text has no comma.
   */
  function Base64Segment(dataUrl: string): (r: Option<string>)
    ensures r.None? <==> ',' !in dataUrl
    ensures r.Some? ==> ',' !in r.value
  {
    match AfterComma(dataUrl)
    case None => None
    case Some(rest) => Some(UpToComma(rest))
  }

  /** What `FileReader.readAsDataURL` produces for a file of the given type. */
  function DataUrl(mimeType: string, payload: string): string {
    "data:" + mimeType + ";base64," + payload
  }

  lemma {:induction false} AfterFirstComma(head: string, tail: string)
    requires ',' !in head
    ensures AfterComma(head + "," + tail) == Some(tail)
  {
    if head != [] {
      assert (head + "," + tail)[1..] == head[1..] + "," + tail;
      AfterFirstComma(head[1..], tail);
    }
  }

  /**
   * The stored content is exactly the base64 payload: the `data:...;base64,` header
   * is dropped, for every MIME type and payload without commas.
   */
  lemma SegmentOfDataUrl(mimeType: string, payload: string)
    requires ',' !in mimeType && ',' !in payload
    ensures Base64Segment(DataUrl(mimeType, payload)) == Some(payload)
  {
    var head := "data:" + mimeType + ";base64";
    assert DataUrl(mimeType, payload) == head + "," + payload;
    AfterFirstComma(head, payload);
    assert UpToComma(payload) == payload;
  }
}
