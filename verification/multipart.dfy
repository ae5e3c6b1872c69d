/**
 * The framing of the live feed: each JPEG frame is sent as one body part of
 * a `multipart/x-mixed-replace` response whose boundary is "frame". A part
 * opens with the delimiter "--frame" (section 5.1.1 of RFC 2046), carries a
 * Content-Type header and a blank line, then the JPEG bytes and a CRLF.
 */
module Multipart {
  import opened Wrappers

  newtype byte = x: int | 0 <= x < 256

  /** The bytes of a string of 8-bit characters. */
  function Ascii(s: string): (b: seq<byte>)
    requires forall i :: 0 <= i < |s| ==> s[i] as int < 256
    ensures |b| == |s|
  {
    seq(|s|, i requires 0 <= i < |s| => s[i] as int as byte)
  }

  /** The boundary named in the response's media type. */
  const Boundary: string := "frame"

  const MimeType: string := "multipart/x-mixed-replace; boundary=" + Boundary

  const CRLF: seq<byte> := [13, 10]

  /** "--frame": the delimiter line that opens every part. */
  const Delimiter: seq<byte> := Ascii("--frame")

  /** What precedes every frame's bytes:
      "--frame\r\nContent-Type: image/jpeg\r\n\r\n". */
  const PartHeader: seq<byte> := Delimiter + CRLF + Ascii("Content-Type: image/jpeg") + CRLF + CRLF

  /** The bytes a part adds around its payload. */
  const FramingLength: nat := 39

  /** One chunk of the live feed. */
  function FrameChunk(jpeg: seq<byte>): (chunk: seq<byte>)
    ensures |chunk| == |jpeg| + FramingLength
  {
    PartHeader + jpeg + CRLF
  }

  /** The payload of a chunk, if it is framed as a part of this stream. */
  function Unframe(chunk: seq<byte>): (jpeg: Option<seq<byte>>)
  {
    var h := |PartHeader|;
    if |chunk| >= h + |CRLF| && chunk[..h] == PartHeader && chunk[|chunk| - |CRLF|..] == CRLF
    then Some(chunk[h..|chunk| - |CRLF|])
    else None
  }

  /** Stripping the header and the trailing CRLF gives back exactly the
      payload, and only chunks built by FrameChunk are accepted. */
  lemma UnframeIff(chunk: seq<byte>, jpeg: seq<byte>)
    ensures Unframe(chunk) == Some(jpeg) <==> chunk == FrameChunk(jpeg)
  {
    var h := |PartHeader|;
    if chunk == FrameChunk(jpeg) {
      assert chunk[..h] == PartHeader;
      assert chunk[|chunk| - |CRLF|..] == CRLF;
      assert chunk[h..|chunk| - |CRLF|] == jpeg;
    }
    if Unframe(chunk) == Some(jpeg) {
      assert chunk == chunk[..h] + chunk[h..|chunk| - |CRLF|] + chunk[|chunk| - |CRLF|..];
    }
  }

  /** Different frames give different chunks. */
  lemma FrameChunkInjective(p: seq<byte>, q: seq<byte>)
    requires FrameChunk(p) == FrameChunk(q)
    ensures p == q
  {
    UnframeIff(FrameChunk(p), p);
    UnframeIff(FrameChunk(p), q);
  }

  /** The delimiter is "--" followed by the `boundary=` parameter of the
      media type the live feed is served with, as section 5.1.1 of RFC 2046
      defines it, and every part opens with it and a line break. */
  lemma PartOpensWithDelimiter(jpeg: seq<byte>)
    ensures Delimiter == Ascii("--" + Boundary)
    ensures Delimiter == Ascii("--" + MimeType[|"multipart/x-mixed-replace; boundary="|..])
    ensures FrameChunk(jpeg)[..|Delimiter| + 2] == Delimiter + CRLF
  {
    assert "--" + Boundary == "--frame";
    assert MimeType[|"multipart/x-mixed-replace; boundary="|..] == Boundary;
    assert FrameChunk(jpeg)[..|Delimiter| + 2] == PartHeader[..|Delimiter| + 2];
  }

  /** Between two consecutive chunks of the stream the bytes read CRLF
      "--frame": the full delimiter of section 5.1.1 of RFC 2046. */
  lemma DelimiterBetweenChunks(p: seq<byte>, q: seq<byte>)
    ensures var first := FrameChunk(p);
      (first + FrameChunk(q))[|first| - 2..|first| + |Delimiter|] == CRLF + Delimiter
  {
    var first := FrameChunk(p);
    var s := first + FrameChunk(q);
    PartOpensWithDelimiter(q);
    assert s[|first| - 2..|first|] == CRLF;
    assert s[|first|..|first| + |Delimiter|] == FrameChunk(q)[..|Delimiter|];
  }
}
