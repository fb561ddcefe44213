/**
 * `ETLDiskJob.get_decoded_html_from_bytes`: strict base64, then the UTF-8
 * codec, then the ASCII codec, then whatever encoding chardet detects.
 *
 * The last stage runs inside the `except UnicodeDecodeError` handler of the
 * outer `try`. An exception raised there that is not a UnicodeDecodeError
 * (a `TypeError` when chardet reports no encoding and `decode(None)` is
 * called, a `LookupError` for an encoding name Python does not know) is not
 * caught by the sibling `except Exception` clause and leaves the function.
 */
module HtmlDecoding {
  import opened Wrappers
  import opened Values
  import Base64
  import Utf8

  /** What `bytes.decode(encoding)` does with a detected encoding name. */
  datatype CodecResult =
    | Decoded(text: string)  // the codec accepted the bytes
    | UnicodeFailure         // UnicodeDecodeError
    | UnknownEncoding        // LookupError: no codec of that name

  /** The encoding-detection collaborators: chardet and Python's codec registry. */
  datatype Detector = Detector(
    detect: seq<byte> -> Option<string>,        // chardet.detect(b)["encoding"]; None when it finds none
    decodeAs: (string, seq<byte>) -> CodecResult)

  /** The three ways the function can end. */
  datatype HtmlOutcome =
    | Text(html: string)       // it returns a string
    | NoText                   // it returns None
    | Escapes(error: PyError)  // an exception propagates to the caller

  /** Lines 300-305: chardet, then decoding with what it reports. */
  function DetectedStage(bytes: seq<byte>, det: Detector): HtmlOutcome {
    match det.detect(bytes)
    case None => Escapes(TypeError)
    case Some(encoding) =>
      match det.decodeAs(encoding, bytes)
      case Decoded(text) => Text(text)
      case UnicodeFailure => NoText
      case UnknownEncoding => Escapes(LookupError)
  }

  /** The whole fallback chain of lines 287-311. */
  function DecodeHtml(content: string, det: Detector): HtmlOutcome {
    match Base64.Decode(content)
    case None => NoText
    case Some(bytes) =>
      if Utf8.WellFormed(bytes) then Text(Utf8.Decode(bytes))
      else if Utf8.IsAscii(bytes) then Text(Utf8.AsciiDecode(bytes))
      else DetectedStage(bytes, det)
  }

  /** Content that strict base64 rejects yields None, whatever the detector does. */
  lemma InvalidBase64IsNone(content: string, det: Detector)
    requires !Base64.WellFormed(content)
    ensures DecodeHtml(content, det) == NoText
  {
  }

  /** Base64 of well-formed UTF-8 yields the UTF-8 text; the later stages are never reached. */
  lemma Utf8Wins(content: string, det: Detector)
    requires Base64.Decode(content).Some? && Utf8.WellFormed(Base64.Decode(content).value)
    ensures DecodeHtml(content, det) == Text(Utf8.Decode(Base64.Decode(content).value))
  {
  }

  /**
   * The ASCII fallback never succeeds: ASCII bytes are well-formed UTF-8, so
   * once UTF-8 has failed the chain always goes on to chardet.
   */
  lemma AsciiFallbackIsDead(content: string, det: Detector)
    requires Base64.Decode(content).Some? && !Utf8.WellFormed(Base64.Decode(content).value)
    ensures !Utf8.IsAscii(Base64.Decode(content).value)
    ensures DecodeHtml(content, det) == DetectedStage(Base64.Decode(content).value, det)
  {
    var bytes := Base64.Decode(content).value;
    if Utf8.IsAscii(bytes) {
      Utf8.AsciiIsUtf8(bytes);
      assert false;
    }
  }

  /** Any string, encoded as UTF-8 and then as base64, decodes back to itself. */
  lemma RoundTrip(text: string, det: Detector)
    ensures DecodeHtml(Base64.Encode(Utf8.Encode(text)), det) == Text(text)
  {
    Base64.DecodeEncode(Utf8.Encode(text));
    Utf8.DecodeEncode(text);
  }

  /** An exception escapes only from the chardet stage, and only for a missing or unknown encoding. */
  lemma EscapesOnlyFromDetection(content: string, det: Detector)
    requires DecodeHtml(content, det).Escapes?
    ensures Base64.Decode(content).Some?
    ensures var bytes := Base64.Decode(content).value;
            && !Utf8.WellFormed(bytes)
            && (det.detect(bytes) == None
                || det.decodeAs(det.detect(bytes).value, bytes) == UnknownEncoding)
  {
  }

  /** The content "/w==" is the single byte 0xFF: neither UTF-8 nor ASCII. */
  lemma LoneFFByte()
    ensures Base64.Decode("/w==") == Some([0xFF])
    ensures !Utf8.WellFormed([0xFF])
  {
  }

  /**
   * A concrete escape: when chardet finds no encoding for the byte 0xFF,
   * `decode(None)` raises TypeError out of the function instead of it
   * returning None.
   */
  lemma NoDetectedEncodingEscapes(det: Detector)
    requires det.detect([0xFF]) == None
    ensures DecodeHtml("/w==", det) == Escapes(TypeError)
  {
    LoneFFByte();
  }
}
