/** The format registry built by `initExtMap` and the decoders it dispatches to.
    The decoders themselves (Go's image/jpeg, image/png and image/gif) are not
    part of this model: they are supplied as opaque function values, and the
    only thing assumed of them is that each rejects input that does not begin
    with its format's signature. */
module Formats {

  datatype Format = Jpeg | Png | Gif

  /** One decoder per format: `true` when the bytes decode as an image. */
  datatype Codecs = Codecs(
    jpeg: seq<bv8> -> bool,
    png: seq<bv8> -> bool,
    gif: seq<bv8> -> bool)

  /** Runs the decoder that belongs to format `f`. */
  function Decodes(c: Codecs, f: Format, data: seq<bv8>): bool
  {
    match f
    case Jpeg => c.jpeg(data)
    case Png => c.png(data)
    case Gif => c.gif(data)
  }

  /** JPEG start-of-image marker. */
  const JpegSoi: seq<bv8> := [0xFF, 0xD8]
  /** The eight-byte PNG signature. */
  const PngSignature: seq<bv8> := [0x89, 0x50, 0x4E, 0x47, 0x0D, 0x0A, 0x1A, 0x0A]
  /** "GIF87a" and "GIF89a". */
  const Gif87a: seq<bv8> := [0x47, 0x49, 0x46, 0x38, 0x37, 0x61]
  const Gif89a: seq<bv8> := [0x47, 0x49, 0x46, 0x38, 0x39, 0x61]

  predicate StartsWith(data: seq<bv8>, prefix: seq<bv8>)
  {
    |prefix| <= |data| && data[..|prefix|] == prefix
  }

  /** The header a decoder checks before anything else. */
  predicate HasSignature(f: Format, data: seq<bv8>)
  {
    match f
    case Jpeg => StartsWith(data, JpegSoi)
    case Png => StartsWith(data, PngSignature)
    case Gif => StartsWith(data, Gif87a) || StartsWith(data, Gif89a)
  }

  /** The decoders never accept a stream lacking their format's signature. */
  ghost predicate Sound(c: Codecs)
  {
    forall f: Format, data: seq<bv8> :: Decodes(c, f, data) ==> HasSignature(f, data)
  }

  /** The canonical token of each format. */
  function Token(f: Format): string
  {
    match f
    case Jpeg => "jpg"
    case Png => "png"
    case Gif => "gif"
  }

  /** The registry `initExtMap` builds: it holds exactly jpg, png and gif (so
      not "unknown"), it is a bijection between those tokens and the formats,
      inverse to Token, and no token contains a '.', so each survives as a file
      extension. */
  function ExtMap(): (m: map<string, Format>)
    ensures m.Keys == {"jpg", "png", "gif"} && "unknown" !in m
    ensures forall t :: t in m ==> Token(m[t]) == t && '.' !in t
    ensures forall f: Format :: Token(f) in m && m[Token(f)] == f
  {
    map["jpg" := Jpeg, "png" := Png, "gif" := Gif]
  }

  /** The ASCII bytes of "nop", the content the decode-failure tests submit. */
  const Nop: seq<bv8> := [0x6E, 0x6F, 0x70]

  /** A stream without the signature of format `f` never decodes as `f`. */
  lemma UnsignedNeverDecodes(c: Codecs, f: Format, data: seq<bv8>)
    requires Sound(c)
    requires !HasSignature(f, data)
    ensures !Decodes(c, f, data)
  {
  }

  /** The signatures exclude one another: their first bytes (FF, 89, 47) differ. */
  lemma SignaturesExclusive(f: Format, g: Format, data: seq<bv8>)
    requires f != g
    requires HasSignature(f, data)
    ensures !HasSignature(g, data)
  {
    forall prefix | prefix in [JpegSoi, PngSignature, Gif87a, Gif89a] && StartsWith(data, prefix)
      ensures data[0] == prefix[0]
    {
      assert data[..|prefix|][0] == data[0];
    }
  }

  /** A mislabelled upload is rejected: a stream that carries the signature of
      one format never decodes as any other format. */
  lemma MislabelledNeverDecodes(c: Codecs, claimed: Format, actual: Format, data: seq<bv8>)
    requires Sound(c)
    requires claimed != actual && HasSignature(actual, data)
    ensures !Decodes(c, claimed, data)
  {
    SignaturesExclusive(actual, claimed, data);
    UnsignedNeverDecodes(c, claimed, data);
  }

  /** "nop" carries none of the signatures: its first byte already differs. */
  lemma FirstByteDiffers(prefix: seq<bv8>)
    requires |prefix| > 0 && prefix[0] != Nop[0]
    ensures !StartsWith(Nop, prefix)
  {
  }

  /** "nop" decodes under none of the three formats; neither does an empty stream. */
  lemma NopAndEmptyNeverDecode(c: Codecs, f: Format)
    requires Sound(c)
    ensures !Decodes(c, f, Nop)
    ensures !Decodes(c, f, [])
  {
    assert !HasSignature(f, Nop) by {
      FirstByteDiffers(JpegSoi);
      FirstByteDiffers(PngSignature);
      FirstByteDiffers(Gif87a);
      FirstByteDiffers(Gif89a);
    }
    UnsignedNeverDecodes(c, f, Nop);
    UnsignedNeverDecodes(c, f, []);
  }
}
