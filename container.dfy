/**
 Constants of the EPUB container (section 3.3 of EPUB Open Container Format
 3.0.1): the name of the media-type file that must come first in the ZIP,
 and the bytes the converter writes into it when the publication lacks one.
 */
module Container {
  import opened Paths
  import opened FileTree

  /** The base name the archive writer skips at every depth of the walk. */
  const MimetypeName: Name := "mimetype"

  const MarkerText: string := "application/epub+zip"

  /** The bytes of an ASCII string, as a text-mode write of it produces them. */
  function AsciiBytes(s: string): (r: Bytes)
    requires forall i :: 0 <= i < |s| ==> s[i] as int < 128
    ensures |r| == |s|
    ensures forall i :: 0 <= i < |s| ==> r[i] as int == s[i] as int
  {
    seq(|s|, i requires 0 <= i < |s| => s[i] as int as byte)
  }

  /** Exactly the 20 bytes `application/epub+zip`, with no line terminator. */
  const Marker: Bytes := AsciiBytes(MarkerText)
}
