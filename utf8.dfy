/**
 * UTF-8 validity as g_utf8_validate decides it for an explicit length: the
 * byte string must be a sequence of well-formed characters as defined by the
 * UTF8-octets grammar of section 4 of RFC 3629, and must contain no NUL byte.
 * The loader child classifies a file as shader source exactly when its first
 * kibibyte passes this test.
 */
module Utf8 {
  import opened Bytes

  /** The number of bytes the loader child reads to sniff a file (read(fd, snippet, 1024)). */
  const SniffLimit: nat := 1024

  predicate IsTail(b: byte) { 0x80 <= b <= 0xBF }

  /** Bytes no valid text holds: C0, C1 and F5 to FF never occur in UTF-8 (section 1 of RFC 3629), NUL is refused. */
  predicate ForbiddenByte(b: byte) { b == 0 || b == 0xC0 || b == 0xC1 || b >= 0xF5 }

  /**
   * The length of the well-formed UTF-8 character at the start of s, or 0
   * when s does not start with one; a NUL byte counts as ill-formed.
   */
  function LeadingCharLength(s: seq<byte>): (n: nat)
    ensures n <= 4 && n <= |s|
    ensures n > 0 ==> s[0] != 0
    ensures forall i | 0 <= i < n :: !ForbiddenByte(s[i])
  {
    if |s| == 0 || s[0] == 0 then 0
    else
      var b := s[0];
      if b <= 0x7F then 1
      else if 0xC2 <= b <= 0xDF then
        (if |s| >= 2 && IsTail(s[1]) then 2 else 0)
      else if b == 0xE0 then
        (if |s| >= 3 && 0xA0 <= s[1] <= 0xBF && IsTail(s[2]) then 3 else 0)
      else if 0xE1 <= b <= 0xEC || 0xEE <= b <= 0xEF then
        (if |s| >= 3 && IsTail(s[1]) && IsTail(s[2]) then 3 else 0)
      else if b == 0xED then
        (if |s| >= 3 && 0x80 <= s[1] <= 0x9F && IsTail(s[2]) then 3 else 0)
      else if b == 0xF0 then
        (if |s| >= 4 && 0x90 <= s[1] <= 0xBF && IsTail(s[2]) && IsTail(s[3]) then 4 else 0)
      else if 0xF1 <= b <= 0xF3 then
        (if |s| >= 4 && IsTail(s[1]) && IsTail(s[2]) && IsTail(s[3]) then 4 else 0)
      else if b == 0xF4 then
        (if |s| >= 4 && 0x80 <= s[1] <= 0x8F && IsTail(s[2]) && IsTail(s[3]) then 4 else 0)
      else 0
  }

  /** g_utf8_validate(s, |s|, NULL). */
  predicate Valid(s: seq<byte>)
    ensures Valid(s) ==> forall i | 0 <= i < |s| :: !ForbiddenByte(s[i])
    decreases |s|
  {
    s == [] || (LeadingCharLength(s) > 0 && Valid(s[LeadingCharLength(s)..])
                && assert forall i | LeadingCharLength(s) <= i < |s| ::
                     s[i] == s[LeadingCharLength(s)..][i - LeadingCharLength(s)];
                   true)
  }

  /** A Unicode scalar value (section 3 of RFC 3629 excludes the surrogates). */
  predicate IsScalar(cp: int) { 0 <= cp <= 0x10FFFF && !(0xD800 <= cp <= 0xDFFF) }

  /** The encoding of one scalar value (the table in section 3 of RFC 3629). */
  function EncodeScalar(cp: int): (r: seq<byte>)
    requires IsScalar(cp)
    ensures 1 <= |r| <= 4
    ensures |r| == 1 <==> cp <= 0x7F
  {
    if cp <= 0x7F then [cp as byte]
    else if cp <= 0x7FF then [(0xC0 + cp / 64) as byte, (0x80 + cp % 64) as byte]
    else if cp <= 0xFFFF then
      [(0xE0 + cp / 4096) as byte, (0x80 + (cp / 64) % 64) as byte, (0x80 + cp % 64) as byte]
    else
      [(0xF0 + cp / 262144) as byte, (0x80 + (cp / 4096) % 64) as byte,
       (0x80 + (cp / 64) % 64) as byte, (0x80 + cp % 64) as byte]
  }

  /** The scalar value of the well-formed character at the start of s. */
  function DecodeLeading(s: seq<byte>): int
    requires LeadingCharLength(s) > 0
  {
    var n := LeadingCharLength(s);
    if n == 1 then s[0] as int
    else if n == 2 then (s[0] as int - 0xC0) * 64 + (s[1] as int - 0x80)
    else if n == 3 then
      (s[0] as int - 0xE0) * 4096 + (s[1] as int - 0x80) * 64 + (s[2] as int - 0x80)
    else
      (s[0] as int - 0xF0) * 262144 + (s[1] as int - 0x80) * 4096
      + (s[2] as int - 0x80) * 64 + (s[3] as int - 0x80)
  }

  /** Every non-NUL scalar value encodes to one well-formed character that decodes back to it. */
  lemma EncodeThenDecode(cp: int, rest: seq<byte>)
    requires IsScalar(cp) && cp != 0
    ensures LeadingCharLength(EncodeScalar(cp) + rest) == |EncodeScalar(cp)|
    ensures DecodeLeading(EncodeScalar(cp) + rest) == cp
  {
    var e := EncodeScalar(cp);
    var s := e + rest;
    assert s[..|e|] == e;
    if cp <= 0x7F {
    } else if cp <= 0x7FF {
      var a, b := cp / 64, cp % 64;
      assert cp == 64 * a + b;
      assert s[0] as int == 0xC0 + a && s[1] as int == 0x80 + b;
    } else if cp <= 0xFFFF {
      Encode3(cp, s);
    } else {
      Encode4(cp, s);
    }
  }

  lemma Encode3(cp: int, s: seq<byte>)
    requires IsScalar(cp) && 0x7FF < cp <= 0xFFFF
    requires |s| >= 3 && s[..3] == EncodeScalar(cp)
    ensures LeadingCharLength(s) == 3 && DecodeLeading(s) == cp
  {
    var a, b, c := cp / 4096, (cp / 64) % 64, cp % 64;
    assert cp == 4096 * a + 64 * b + c;
    assert s[0] as int == 0xE0 + a && s[1] as int == 0x80 + b && s[2] as int == 0x80 + c;
    assert a == 0 ==> b >= 32;
    assert a == 13 ==> b < 32;
  }

  lemma Encode4(cp: int, s: seq<byte>)
    requires IsScalar(cp) && 0xFFFF < cp
    requires |s| >= 4 && s[..4] == EncodeScalar(cp)
    ensures LeadingCharLength(s) == 4 && DecodeLeading(s) == cp
  {
    var a, b, c, d := cp / 262144, (cp / 4096) % 64, (cp / 64) % 64, cp % 64;
    Base64Digits(cp);
    assert s[0] as int == 0xF0 + a && s[1] as int == 0x80 + b;
    assert s[2] as int == 0x80 + c && s[3] as int == 0x80 + d;
    assert a == 0 ==> b >= 16;
    assert a == 4 ==> b < 16;
  }

  /** The four 6-bit groups of a non-negative number below 2^21, most significant first. */
  lemma Base64Digits(cp: nat)
    ensures cp == 262144 * (cp / 262144) + 4096 * ((cp / 4096) % 64) + 64 * ((cp / 64) % 64) + cp % 64
  {
    var q1 := cp / 64;
    var q2 := q1 / 64;
    assert q2 == cp / 4096;
    assert q2 / 64 == cp / 262144;
    assert q1 == 64 * q2 + q1 % 64;
    assert q2 == 64 * (q2 / 64) + q2 % 64;
  }

  /** Every well-formed character is the encoding of the non-NUL scalar value it decodes to. */
  lemma DecodeThenEncode(s: seq<byte>)
    requires LeadingCharLength(s) > 0
    ensures IsScalar(DecodeLeading(s)) && DecodeLeading(s) != 0
    ensures EncodeScalar(DecodeLeading(s)) == s[..LeadingCharLength(s)]
  {
    var n := LeadingCharLength(s);
    if n == 2 {
      var cp := DecodeLeading(s);
      assert cp / 64 == s[0] as int - 0xC0 && cp % 64 == s[1] as int - 0x80;
    } else if n == 3 {
      Decode3(s);
    } else if n == 4 {
      Decode4(s);
    }
  }

  lemma Decode3(s: seq<byte>)
    requires LeadingCharLength(s) == 3
    ensures IsScalar(DecodeLeading(s)) && DecodeLeading(s) > 0x7FF
    ensures EncodeScalar(DecodeLeading(s)) == s[..3]
  {
    var cp := DecodeLeading(s);
    var a, b, c := s[0] as int - 0xE0, s[1] as int - 0x80, s[2] as int - 0x80;
    assert cp == 4096 * a + 64 * b + c;
    assert cp / 64 == 64 * a + b;
    assert cp / 4096 == a && (cp / 64) % 64 == b && cp % 64 == c;
  }

  lemma Decode4(s: seq<byte>)
    requires LeadingCharLength(s) == 4
    ensures IsScalar(DecodeLeading(s)) && DecodeLeading(s) > 0xFFFF
    ensures EncodeScalar(DecodeLeading(s)) == s[..4]
  {
    var cp := DecodeLeading(s);
    var a, b, c, d := s[0] as int - 0xF0, s[1] as int - 0x80, s[2] as int - 0x80, s[3] as int - 0x80;
    assert cp == 262144 * a + 4096 * b + 64 * c + d;
    assert cp / 64 == 4096 * a + 64 * b + c;
    assert cp / 4096 == 64 * a + b;
    assert cp / 262144 == a && (cp / 4096) % 64 == b && (cp / 64) % 64 == c && cp % 64 == d;
  }

  /** Whether a character is well formed depends only on its own bytes. */
  lemma LeadingCharExtends(s: seq<byte>, t: seq<byte>)
    requires LeadingCharLength(s) > 0
    ensures LeadingCharLength(s + t) == LeadingCharLength(s)
  {
    var u := s + t;
    assert forall i :: 0 <= i < |s| ==> u[i] == s[i];
  }

  /** After a valid prefix, validity is decided by what follows it. */
  lemma {:induction false} ValidAfterValidPrefix(p: seq<byte>, x: seq<byte>)
    requires Valid(p)
    ensures Valid(p + x) <==> Valid(x)
    decreases |p|
  {
    if p != [] {
      var n := LeadingCharLength(p);
      LeadingCharExtends(p, x);
      assert (p + x)[n..] == p[n..] + x;
      ValidAfterValidPrefix(p[n..], x);
    } else {
      assert p + x == x;
    }
  }

  /** A multi-byte character cut short is not well formed. */
  lemma TruncatedCharInvalid(cp: int, k: nat)
    requires IsScalar(cp) && 0 < k < |EncodeScalar(cp)|
    ensures !Valid(EncodeScalar(cp)[..k])
  {
  }

  /** The bytes the child sniffs: at most the first SniffLimit bytes of the file. */
  function Snippet(file: seq<byte>): (s: seq<byte>)
    ensures |s| == if |file| < SniffLimit then |file| else SniffLimit
    ensures s <= file
  {
    if |file| < SniffLimit then file else file[..SniffLimit]
  }

  /** The child's test "all valid UTF-8 in the first KiB". */
  predicate LooksLikeText(file: seq<byte>)
    ensures |file| <= SniffLimit ==> (LooksLikeText(file) <==> Valid(file))
    ensures LooksLikeText(file) ==> forall i | 0 <= i < |file| && i < SniffLimit :: !ForbiddenByte(file[i])
  {
    assert |file| == SniffLimit ==> file[..SniffLimit] == file;
    Valid(Snippet(file))
  }

  /** Text made of ASCII characters other than NUL is valid UTF-8. */
  lemma {:induction false} AsciiTextValid(s: seq<byte>)
    requires forall i :: 0 <= i < |s| ==> 0 < s[i] <= 0x7F
    ensures Valid(s)
  {
    if s != [] {
      AsciiTextValid(s[1..]);
    }
  }

  /** Sniffing a file whose byte 1023 starts a character keeps only that character's first byte. */
  lemma SnippetCutsChar(prefix: seq<byte>, e: seq<byte>, rest: seq<byte>)
    requires |prefix| == SniffLimit - 1 && |e| >= 1
    ensures Snippet(prefix + e + rest) == prefix + e[..1]
  {
    var file := prefix + e + rest;
    assert forall i | 0 <= i < SniffLimit :: file[i] == (prefix + e[..1])[i];
  }

  /** A character followed by valid text is valid text. */
  lemma CharThenValid(cp: int, rest: seq<byte>)
    requires IsScalar(cp) && cp != 0 && Valid(rest)
    ensures Valid(EncodeScalar(cp) + rest)
  {
    var e := EncodeScalar(cp);
    EncodeThenDecode(cp, rest);
    assert (e + rest)[|e|..] == rest;
  }

  /** A character between valid text before and after it keeps the whole valid. */
  lemma ValidAroundChar(prefix: seq<byte>, cp: int, rest: seq<byte>)
    requires Valid(prefix) && IsScalar(cp) && cp != 0 && Valid(rest)
    ensures Valid(prefix + EncodeScalar(cp) + rest)
  {
    var e := EncodeScalar(cp);
    CharThenValid(cp, rest);
    ValidAfterValidPrefix(prefix, e + rest);
    ConcatAssociates(prefix, e, rest);
  }

  lemma ConcatAssociates(a: seq<byte>, b: seq<byte>, c: seq<byte>)
    ensures a + b + c == a + (b + c)
  {
  }

  /**
   * A file whose byte 1023 starts a multi-byte character is classified as
   * binary, even when the whole file is valid UTF-8.
   */
  lemma CharCutAtSniffLimit(prefix: seq<byte>, cp: int, rest: seq<byte>)
    requires |prefix| == SniffLimit - 1 && Valid(prefix)
    requires IsScalar(cp) && cp > 0x7F
    ensures !LooksLikeText(prefix + EncodeScalar(cp) + rest)
    ensures Valid(rest) ==> Valid(prefix + EncodeScalar(cp) + rest)
  {
    var e := EncodeScalar(cp);
    SnippetCutsChar(prefix, e, rest);
    ValidAfterValidPrefix(prefix, e[..1]);
    TruncatedCharInvalid(cp, 1);
    if Valid(rest) {
      ValidAroundChar(prefix, cp, rest);
    }
  }

}
