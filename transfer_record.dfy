/**
 * The transfer record: the bytes the loader child leaves in its shared-memory
 * segment and the parent decodes once the child has exited. The record is a
 * header of five size_t words (tag, width, height, rowstride, len) in native
 * byte order, followed by the payload: the whole file for a shader, the pixel
 * rows GdkPixbuf decoded for an image. The GL upload and the shader
 * compilation are not modelled; decoding yields what they are given.
 */
module TransferRecord {
  import opened Wrappers
  import opened Bytes
  import Utf8
  import opened ShaderFeatures

  /** The values of loaded_fmt. */
  const TagGlsl: Word := 0x420420
  const TagRgb8: Word := 0x69696969
  const TagRgba8: Word := 0x6969696A

  /** sizeof(shm_header): five size_t words. */
  const HeaderSize: nat := 5 * WordSize

  const Int32Limit: int := 0x8000_0000

  datatype Header = Header(fmt: Word, width: Word, height: Word, rowstride: Word, len: Word)

  function EncodeHeader(order: ByteOrder, h: Header): (r: seq<byte>)
    ensures |r| == HeaderSize
  {
    EncodeWord(order, h.fmt) + EncodeWord(order, h.width) + EncodeWord(order, h.height)
    + EncodeWord(order, h.rowstride) + EncodeWord(order, h.len)
  }

  /** The header fields as the parent reads them through a shm_header pointer. */
  function DecodeHeader(order: ByteOrder, s: seq<byte>): Header
    requires |s| >= HeaderSize
  {
    Header(DecodeWord(order, s[0..8]), DecodeWord(order, s[8..16]), DecodeWord(order, s[16..24]),
           DecodeWord(order, s[24..32]), DecodeWord(order, s[32..40]))
  }

  /** The header's k-th word. */
  function Field(h: Header, k: nat): Word
    requires k < 5
  {
    match k
    case 0 => h.fmt
    case 1 => h.width
    case 2 => h.height
    case 3 => h.rowstride
    case _ => h.len
  }

  /** The header read from any HeaderSize bytes encodes back to those bytes. */
  lemma HeaderBytesRoundTrip(order: ByteOrder, s: seq<byte>)
    requires |s| >= HeaderSize
    ensures EncodeHeader(order, DecodeHeader(order, s)) == s[..HeaderSize]
  {
    var t := s[..HeaderSize];
    FiveWords(t);
    assert t[0..8] == s[0..8] && t[8..16] == s[8..16] && t[16..24] == s[16..24]
      && t[24..32] == s[24..32] && t[32..40] == s[32..40];
    WordBytesRoundTrip(order, s[0..8]);
    WordBytesRoundTrip(order, s[8..16]);
    WordBytesRoundTrip(order, s[16..24]);
    WordBytesRoundTrip(order, s[24..32]);
    WordBytesRoundTrip(order, s[32..40]);
  }

  lemma FiveWords(t: seq<byte>)
    requires |t| == HeaderSize
    ensures t == t[0..8] + t[8..16] + t[16..24] + t[24..32] + t[32..40]
  {
  }

  lemma SliceInFirst(a: seq<byte>, b: seq<byte>, i: nat, j: nat)
    requires i <= j <= |a|
    ensures (a + b)[i..j] == a[i..j]
  {
  }

  lemma SliceIsSecond(a: seq<byte>, b: seq<byte>)
    ensures (a + b)[|a|..|a| + |b|] == b
  {
  }

  /** Each header word sits in its own eight bytes, whatever follows the header. */
  lemma HeaderWordAt(order: ByteOrder, h: Header, payload: seq<byte>, k: nat)
    requires k < 5
    ensures (EncodeHeader(order, h) + payload)[8 * k..8 * k + 8] == EncodeWord(order, Field(h, k))
  {
    var w0, w1, w2, w3, w4 := EncodeWord(order, h.fmt), EncodeWord(order, h.width),
      EncodeWord(order, h.height), EncodeWord(order, h.rowstride), EncodeWord(order, h.len);
    var a2 := w0 + w1;
    var a3 := a2 + w2;
    var a4 := a3 + w3;
    var e := a4 + w4;
    SliceInFirst(e, payload, 8 * k, 8 * k + 8);
    if k == 4 {
      SliceIsSecond(a4, w4);
    } else {
      SliceInFirst(a4, w4, 8 * k, 8 * k + 8);
      if k == 3 {
        SliceIsSecond(a3, w3);
      } else {
        SliceInFirst(a3, w3, 8 * k, 8 * k + 8);
        if k == 2 {
          SliceIsSecond(a2, w2);
        } else {
          SliceInFirst(a2, w2, 8 * k, 8 * k + 8);
          if k == 1 {
            SliceIsSecond(w0, w1);
          } else {
            SliceInFirst(w0, w1, 0, 8);
          }
        }
      }
    }
  }

  lemma {:induction false} HeaderRoundTrip(order: ByteOrder, h: Header, payload: seq<byte>)
    ensures DecodeHeader(order, EncodeHeader(order, h) + payload) == h
  {
    var s := EncodeHeader(order, h) + payload;
    assert DecodeWord(order, s[0..8]) == h.fmt by {
      HeaderWordAt(order, h, payload, 0);
      WordRoundTrip(order, h.fmt);
    }
    assert DecodeWord(order, s[8..16]) == h.width by {
      HeaderWordAt(order, h, payload, 1);
      WordRoundTrip(order, h.width);
    }
    assert DecodeWord(order, s[16..24]) == h.height by {
      HeaderWordAt(order, h, payload, 2);
      WordRoundTrip(order, h.height);
    }
    assert DecodeWord(order, s[24..32]) == h.rowstride by {
      HeaderWordAt(order, h, payload, 3);
      WordRoundTrip(order, h.rowstride);
    }
    assert DecodeWord(order, s[32..40]) == h.len by {
      HeaderWordAt(order, h, payload, 4);
      WordRoundTrip(order, h.len);
    }
  }

  /** A gint that GdkPixbuf reports as a size: width, height, rowstride. */
  type PixbufInt = x: int | 0 <= x < 0x8000_0000

  /** What the child reads from the GdkPixbuf it decoded; pixels holds gdk_pixbuf_get_byte_length bytes. */
  datatype Pixbuf = Pixbuf(hasAlpha: bool, width: PixbufInt, height: PixbufInt, rowstride: PixbufInt, pixels: seq<byte>)

  /** Bytes per pixel of an 8-bit RGB or RGBA image. */
  function Channels(hasAlpha: bool): nat { if hasAlpha then 4 else 3 }

  /**
   * GdkPixbuf's own layout: a non-empty image whose rows lie rowstride bytes
   * apart, rowstride being a multiple of 4 (gdk_pixbuf_new rounds each row up
   * to 4 bytes), and whose last row is not padded, so that its byte length is
   * (height - 1) * rowstride + width * channels.
   */
  predicate WellFormedPixbuf(p: Pixbuf)
  {
    && p.width > 0 && p.height > 0
    && p.rowstride >= p.width * Channels(p.hasAlpha) && p.rowstride % 4 == 0
    && |p.pixels| == (p.height - 1) * p.rowstride + p.width * Channels(p.hasAlpha)
  }

  /** The record the child writes for a shader: only the tag is set (ftruncate zero-fills the rest), then the file. */
  function EncodeShader(order: ByteOrder, file: seq<byte>): (seg: seq<byte>)
    ensures |seg| == HeaderSize + |file| && seg[HeaderSize..] == file
    ensures DecodeHeader(order, seg) == Header(TagGlsl, 0, 0, 0, 0)
  {
    HeaderRoundTrip(order, Header(TagGlsl, 0, 0, 0, 0), file);
    EncodeHeader(order, Header(TagGlsl, 0, 0, 0, 0)) + file
  }

  /** The record the child writes for an image: tag by alpha, the image's fields, then its pixel bytes. */
  function EncodePixels(order: ByteOrder, p: Pixbuf): (seg: seq<byte>)
    requires |p.pixels| < WordLimit
    ensures |seg| == HeaderSize + |p.pixels| && seg[HeaderSize..] == p.pixels
    ensures var h := DecodeHeader(order, seg);
      && (h.fmt == TagRgba8 <==> p.hasAlpha) && (h.fmt == TagRgb8 <==> !p.hasAlpha)
      && h.width == p.width && h.height == p.height && h.rowstride == p.rowstride
      && h.len == |p.pixels|
  {
    var h := Header(if p.hasAlpha then TagRgba8 else TagRgb8, p.width, p.height, p.rowstride, |p.pixels|);
    HeaderRoundTrip(order, h, p.pixels);
    EncodeHeader(order, h) + p.pixels
  }

  /** How the loader child ends: _Exit(0) after filling the segment, or an abort from a failed assert. */
  datatype ChildExit = Crashed | Exited(segment: seq<byte>)

  /**
   * The child of start_file_loader. file is what open/read see (None when the
   * file cannot be opened), image what gdk_pixbuf_new_from_file returns.
   */
  function LoaderChild(order: ByteOrder, file: Option<seq<byte>>, image: Option<Pixbuf>): (e: ChildExit)
    ensures e.Exited? <==> (file.Some? && |file.value| > 0 &&
      (Utf8.LooksLikeText(file.value) || (image.Some? && |image.value.pixels| < WordLimit)))
    ensures e.Exited? ==> |e.segment| >= HeaderSize
    ensures e.Exited? && Utf8.LooksLikeText(file.value) ==> e.segment[HeaderSize..] == file.value
  {
    if file.None? || |file.value| == 0 then Crashed
    else if Utf8.LooksLikeText(file.value) then Exited(EncodeShader(order, file.value))
    else if image.None? || |image.value.pixels| >= WordLimit then Crashed
    else Exited(EncodePixels(order, image.value))
  }

  /** What load_renderable keeps of a picture: the texture size, its unpack row length and the alpha flag. */
  datatype Picture = Picture(width: int, height: int, channels: nat, rowLength: int, hasAlpha: bool)

  datatype Shader = Shader(body: seq<byte>, features: Features)

  /** renderable_t. */
  datatype Renderable = PictureR(picture: Picture) | ShaderR(shader: Shader)

  /** A size_t converted to a 32-bit int (the texture's int fields, GL's GLint/GLsizei arguments). */
  function Int32Of(w: Word): (r: int)
    ensures -Int32Limit <= r < Int32Limit
    ensures w < Int32Limit ==> r == w
  {
    var low := w % 0x1_0000_0000;
    if low < Int32Limit then low else low - 0x1_0000_0000
  }

  predicate IsPixelTag(fmt: Word) { fmt == TagRgb8 || fmt == TagRgba8 }

  /** The picture descriptor load_renderable derives from a pixel header. */
  function PictureOf(h: Header): (p: Picture)
    requires IsPixelTag(h.fmt)
    ensures p.channels == (if h.fmt == TagRgb8 then 3 else 4)
    ensures p.hasAlpha <==> h.fmt == TagRgba8
  {
    var channels := if h.fmt == TagRgb8 then 3 else 4;
    Picture(Int32Of(h.width), Int32Of(h.height), channels, Int32Of(h.rowstride / channels), h.fmt == TagRgba8)
  }

  /** GL_UNPACK_ALIGNMENT, left at its default. */
  const UnpackAlignment: nat := 4

  /** n rounded up to the unpack alignment. */
  function AlignUp(n: nat): (r: nat)
    ensures r % UnpackAlignment == 0 && n <= r < n + UnpackAlignment
  {
    (n + UnpackAlignment - 1) / UnpackAlignment * UnpackAlignment
  }

  /**
   * The bytes between the starts of two rows as glTexSubImage2D reads them:
   * a row is GL_UNPACK_ROW_LENGTH pixels, or the width when that is 0 (a
   * negative value is refused by glPixelStorei, which leaves the 0 set after
   * the previous upload), and rows start on the unpack alignment.
   */
  function UnpackStride(p: Picture): nat
    requires p.width > 0
  {
    var rowPixels := if p.rowLength > 0 then p.rowLength else p.width;
    AlignUp(rowPixels * p.channels)
  }

  /**
   * The bytes glTexSubImage2D reads after the header: nothing for an empty
   * or negative size (GL refuses the latter), otherwise height - 1 strides
   * and a last row of width pixels.
   */
  function PixelBytesRead(p: Picture): nat
  {
    if p.width <= 0 || p.height <= 0 then 0
    else
      StridesCover(p.height - 1, UnpackStride(p));
      (p.height - 1) * UnpackStride(p) + p.width * p.channels
  }

  lemma StridesCover(rows: nat, stride: nat)
    ensures rows * stride >= 0
  {
  }

  /**
   * For a GdkPixbuf's rowstride, the stride GL derives from rowstride / channels
   * pixels is rowstride itself: the division drops fewer than 4 bytes, which the
   * alignment puts back.
   */
  lemma AlignedStrideKept(rowstride: nat, channels: nat)
    requires channels == 3 || channels == 4
    requires rowstride >= channels && rowstride % UnpackAlignment == 0
    ensures rowstride / channels > 0
    ensures AlignUp(rowstride / channels * channels) == rowstride
  {
    var q := rowstride / channels;
    assert rowstride - channels < q * channels <= rowstride;
    var r := AlignUp(q * channels);
    assert r == 4 * (r / 4) && rowstride == 4 * (rowstride / 4);
    assert r / 4 == rowstride / 4;
  }

  /** What load_renderable does as written: a renderable, a read beyond the end of the segment, or an uncaught throw. */
  datatype AsWrittenOutcome =
    | Rendered(renderable: Option<Renderable>)
    | ReadsPastSegment(upTo: int, size: int)
    | ThrowsOnCopy(requested: int)

  /**
   * No std::string of 2^63 bytes or more can be made on a 64-bit system: the
   * constructor throws std::length_error beyond max_size(), or the allocation
   * fails with std::bad_alloc, before a byte is copied.
   */
  const AllocationLimit: nat := 0x8000_0000_0000_0000

  /**
   * load_renderable as written, for a mapped segment of |seg| > 0 bytes. The
   * header is read without a size check; below HeaderSize its missing bytes
   * come from the zero-filled rest of the mapped page. The shader body length
   * is computed in size_t and so wraps, and the std::string built from it
   * then throws, which nothing catches; the pixel rows are not checked
   * against the segment.
   */
  function DecodeAsWritten(order: ByteOrder, seg: seq<byte>): (o: AsWrittenOutcome)
    requires |seg| > 0
    ensures o.Rendered? && o.renderable.Some? ==> |seg| >= HeaderSize
  {
    var h := DecodeHeader(order, MappedPage(seg));
    if IsPixelTag(h.fmt) then PixelsAsWritten(PictureOf(h), |seg|)
    else if h.fmt == TagGlsl then ShaderAsWritten(seg)
    else Rendered(None)
  }

  /** The bytes the header pointer sees: the segment, then the zero-filled rest of its page. */
  function MappedPage(seg: seq<byte>): (page: seq<byte>)
    ensures |page| >= HeaderSize && |page| >= |seg|
  {
    if |seg| < HeaderSize then seg + Zeros(HeaderSize - |seg|) else seg
  }

  /** The pixel branch as written: GL reads the rows whatever the segment's size. */
  function PixelsAsWritten(p: Picture, size: nat): AsWrittenOutcome
  {
    var read := PixelBytesRead(p);
    if HeaderSize + read > size then ReadsPastSegment(HeaderSize + read, size)
    else Rendered(Some(PictureR(p)))
  }

  /** The shader branch as written: the body length len - sizeof(shm_header) is computed in size_t. */
  function ShaderAsWritten(seg: seq<byte>): AsWrittenOutcome
  {
    var bodyLen := if |seg| >= HeaderSize then |seg| - HeaderSize else WordLimit + |seg| - HeaderSize;
    if bodyLen >= AllocationLimit then ThrowsOnCopy(bodyLen)
    else
      var body := seg[HeaderSize..];
      Rendered(Some(ShaderR(Shader(body, FeaturesOf(body)))))
  }

  /**
   * load_renderable with the two missing checks added: a segment shorter
   * than the header, and pixel rows that run past the segment, yield no
   * renderable. A shader body is everything after the header; an unknown
   * tag yields no renderable.
   */
  function Decode(order: ByteOrder, seg: seq<byte>): (r: Option<Renderable>)
    ensures |seg| < HeaderSize ==> r.None?
    ensures |seg| >= HeaderSize && DecodeHeader(order, seg).fmt == TagGlsl ==>
      r == Some(ShaderR(Shader(seg[HeaderSize..], FeaturesOf(seg[HeaderSize..]))))
    ensures |seg| >= HeaderSize && IsPixelTag(DecodeHeader(order, seg).fmt) ==>
      var h := DecodeHeader(order, seg);
      && (r.Some? <==> HeaderSize + PixelBytesRead(PictureOf(h)) <= |seg|)
      && (r.Some? ==> r.value == PictureR(PictureOf(h)))
    ensures (|seg| >= HeaderSize && !IsPixelTag(DecodeHeader(order, seg).fmt)
             && DecodeHeader(order, seg).fmt != TagGlsl) ==> r.None?
  {
    if |seg| < HeaderSize then None
    else
      var h := DecodeHeader(order, seg);
      if IsPixelTag(h.fmt) then
        if HeaderSize + PixelBytesRead(PictureOf(h)) > |seg| then None
        else Some(PictureR(PictureOf(h)))
      else if h.fmt == TagGlsl then
        var body := seg[HeaderSize..];
        Some(ShaderR(Shader(body, FeaturesOf(body))))
      else None
  }

  /**
   * The corrected decoder gives what the code gives whenever the code stays
   * inside the segment, and nothing where the code reads past it; where the
   * code throws, the segment is shorter than a header (or too large to map).
   */
  lemma DecodeMatchesAsWritten(order: ByteOrder, seg: seq<byte>)
    requires |seg| > 0
    ensures DecodeAsWritten(order, seg).Rendered? ==> Decode(order, seg) == DecodeAsWritten(order, seg).renderable
    ensures DecodeAsWritten(order, seg).ReadsPastSegment? ==> Decode(order, seg).None?
    ensures DecodeAsWritten(order, seg).ThrowsOnCopy? ==>
      (|seg| < HeaderSize && Decode(order, seg).None?) || |seg| >= HeaderSize + AllocationLimit
  {
    var o := DecodeAsWritten(order, seg);
    if |seg| < HeaderSize {
      ShortSegmentRendersNothing(order, seg);
    } else {
      var h := DecodeHeader(order, seg);
      if IsPixelTag(h.fmt) {
        PixelOutcome(order, seg);
      } else if h.fmt == TagGlsl {
        ShaderOutcome(order, seg);
      } else {
        assert DecodeAsWritten(order, seg) == Rendered(None);
      }
    }
  }

  /** What the code does with a segment at least a header long that holds the shader tag. */
  lemma ShaderOutcome(order: ByteOrder, seg: seq<byte>)
    requires |seg| >= HeaderSize && DecodeHeader(order, seg).fmt == TagGlsl
    ensures var body := seg[HeaderSize..];
      DecodeAsWritten(order, seg) ==
        if |body| >= AllocationLimit then ThrowsOnCopy(|body|)
        else Rendered(Some(ShaderR(Shader(body, FeaturesOf(body)))))
  {
  }

  /** What the code does with a segment that holds a pixel header. */
  lemma PixelOutcome(order: ByteOrder, seg: seq<byte>)
    requires |seg| >= HeaderSize && IsPixelTag(DecodeHeader(order, seg).fmt)
    ensures var p := PictureOf(DecodeHeader(order, seg));
      DecodeAsWritten(order, seg) ==
        if HeaderSize + PixelBytesRead(p) > |seg| then ReadsPastSegment(HeaderSize + PixelBytesRead(p), |seg|)
        else Rendered(Some(PictureR(p)))
  {
  }

  /** On a segment shorter than the header the code never yields a renderable. */
  lemma ShortSegmentRendersNothing(order: ByteOrder, seg: seq<byte>)
    requires 0 < |seg| < HeaderSize
    ensures DecodeAsWritten(order, seg) == Rendered(None) || DecodeAsWritten(order, seg).ReadsPastSegment?
      || DecodeAsWritten(order, seg).ThrowsOnCopy?
  {
  }

  /**
   * Finding: a segment shorter than the header that starts with the shader
   * tag makes the code ask std::string for nearly 2^64 bytes, which throws
   * (with 8 more zero bytes, a 16-byte segment asks for 2^64 - 24). No loader
   * child leaves such a segment (LoaderChild's records are at least a header
   * long).
   */
  lemma ShortShaderSegmentThrows(order: ByteOrder, tail: seq<byte>)
    requires |tail| < HeaderSize - WordSize
    ensures var seg := EncodeWord(order, TagGlsl) + tail;
      DecodeAsWritten(order, seg) == ThrowsOnCopy(WordLimit + |seg| - HeaderSize)
  {
    var seg := EncodeWord(order, TagGlsl) + tail;
    ShortPageTag(order, TagGlsl, tail);
    assert DecodeAsWritten(order, seg) == ShaderAsWritten(seg);
  }

  /** The header read from a short segment's page has the tag of the segment's first word. */
  lemma ShortPageTag(order: ByteOrder, tag: Word, tail: seq<byte>)
    requires |tail| < HeaderSize - WordSize
    ensures DecodeHeader(order, MappedPage(EncodeWord(order, tag) + tail)).fmt == tag
  {
    var seg := EncodeWord(order, tag) + tail;
    var page := seg + Zeros(HeaderSize - |seg|);
    assert MappedPage(seg) == page;
    assert page[0..8] == EncodeWord(order, tag);
    WordRoundTrip(order, tag);
  }

  /**
   * Finding: a header of a non-empty image with no pixel bytes after it makes
   * the upload read past the segment; a 2x2 RGB header with a rowstride of 8
   * makes it read 14 bytes.
   */
  lemma UncheckedPixelRowsReadPast(order: ByteOrder, h: Header)
    requires IsPixelTag(h.fmt) && 0 < h.width < Int32Limit && 0 < h.height < Int32Limit
    ensures PixelBytesRead(PictureOf(h)) > 0
    ensures DecodeAsWritten(order, EncodeHeader(order, h)) ==
      ReadsPastSegment(HeaderSize + PixelBytesRead(PictureOf(h)), HeaderSize)
  {
    HeaderAloneDecodes(order, h);
    PixelOutcome(order, EncodeHeader(order, h));
    NonEmptyPictureReads(PictureOf(h));
  }

  /** A header with no payload reads back as itself. */
  lemma HeaderAloneDecodes(order: ByteOrder, h: Header)
    ensures DecodeHeader(order, EncodeHeader(order, h)) == h
  {
    HeaderRoundTrip(order, h, []);
    assert EncodeHeader(order, h) + [] == EncodeHeader(order, h);
  }

  /** A picture of positive size makes GL read at least its last row. */
  lemma NonEmptyPictureReads(p: Picture)
    requires p.width > 0 && p.height > 0 && p.channels > 0
    ensures PixelBytesRead(p) >= p.width * p.channels > 0
  {
    StridesCover(p.height - 1, UnpackStride(p));
  }

  /**
   * A rowstride smaller than a pixel gives GL a row length of 0, so rows are
   * the width long, padded to 4: a 2x2 RGB image with rowstride 0 needs 14
   * bytes, not the 6 that (height - 1) * rowstride + width * channels gives.
   */
  lemma ZeroRowstrideUsesWidth(h: Header)
    requires IsPixelTag(h.fmt) && h.rowstride < PictureOf(h).channels
    requires 0 < h.width < Int32Limit && 0 < h.height < Int32Limit
    ensures var ch := PictureOf(h).channels;
      PixelBytesRead(PictureOf(h)) == (h.height - 1) * AlignUp(h.width * ch) + h.width * ch
  {
  }

  /** GLSL round trip: the parent decodes the child's shader record to the file's bytes. */
  lemma ShaderRoundTrip(order: ByteOrder, file: seq<byte>)
    ensures Decode(order, EncodeShader(order, file)) == Some(ShaderR(Shader(file, FeaturesOf(file))))
  {
  }

  /**
   * Pixel round trip: the parent decodes the child's record of a GdkPixbuf
   * image to its size, channel count, row length and alpha flag, and the
   * upload stays inside the segment.
   */
  lemma PixelRoundTrip(order: ByteOrder, p: Pixbuf)
    requires WellFormedPixbuf(p) && |p.pixels| < WordLimit
    ensures var ch := Channels(p.hasAlpha);
      Decode(order, EncodePixels(order, p)) ==
        Some(PictureR(Picture(p.width, p.height, ch, p.rowstride / ch, p.hasAlpha)))
  {
    PixbufPicture(order, p);
    PixbufRowsFit(p);
  }

  /** The picture the parent derives from the child's header of a GdkPixbuf image. */
  lemma PixbufPicture(order: ByteOrder, p: Pixbuf)
    requires |p.pixels| < WordLimit
    ensures var ch := Channels(p.hasAlpha);
      PictureOf(DecodeHeader(order, EncodePixels(order, p))) ==
        Picture(p.width, p.height, ch, p.rowstride / ch, p.hasAlpha)
  {
  }

  /** GL reads exactly a GdkPixbuf's bytes when given its size and rowstride / channels as row length. */
  lemma PixbufRowsFit(p: Pixbuf)
    requires WellFormedPixbuf(p)
    ensures var ch := Channels(p.hasAlpha);
      PixelBytesRead(Picture(p.width, p.height, ch, p.rowstride / ch, p.hasAlpha)) == |p.pixels|
  {
    var ch := Channels(p.hasAlpha);
    AlignedStrideKept(p.rowstride, ch);
    assert UnpackStride(Picture(p.width, p.height, ch, p.rowstride / ch, p.hasAlpha)) == p.rowstride;
  }

  /**
   * What the parent makes of whatever the child leaves: the file's bytes as
   * shader source when its first KiB is text, otherwise the image's picture.
   */
  lemma LoaderChildDecodes(order: ByteOrder, file: Option<seq<byte>>, image: Option<Pixbuf>)
    requires LoaderChild(order, file, image).Exited?
    requires !Utf8.LooksLikeText(file.value) && image.Some? ==> WellFormedPixbuf(image.value)
    ensures var seg := LoaderChild(order, file, image).segment;
      if Utf8.LooksLikeText(file.value) then
        Decode(order, seg) == Some(ShaderR(Shader(file.value, FeaturesOf(file.value))))
      else
        var p := image.value;
        Decode(order, seg) == Some(PictureR(Picture(p.width, p.height, Channels(p.hasAlpha),
                                                    p.rowstride / Channels(p.hasAlpha), p.hasAlpha)))
  {
    if Utf8.LooksLikeText(file.value) {
      assert LoaderChild(order, file, image).segment == EncodeShader(order, file.value);
      ShaderRoundTrip(order, file.value);
    } else {
      assert LoaderChild(order, file, image).segment == EncodePixels(order, image.value);
      PixelRoundTrip(order, image.value);
    }
  }

  /**
   * A check of rowstride * height against len would reject a legitimate
   * padded image: a 1x2 RGB pixbuf with 4-byte rows is 7 bytes long.
   */
  lemma StrideTimesHeightRejectsPadded()
    ensures var p := Pixbuf(false, 1, 2, 4, Zeros(7));
      WellFormedPixbuf(p) && p.rowstride * p.height > |p.pixels|
  {
  }
}
