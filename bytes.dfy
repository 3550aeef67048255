/**
 * Bytes and the 64-bit machine words of an LP64 target (size_t), with the
 * byte order of the host: the transfer record is written and read on the same
 * machine, so its words are in native order, either little- or big-endian.
 */
module Bytes {
  newtype byte = x: int | 0 <= x < 0x100

  /** sizeof(size_t) on LP64. */
  const WordSize: nat := 8
  const WordLimit: int := 0x1_0000_0000_0000_0000

  /** A size_t value. */
  type Word = x: int | 0 <= x < 0x1_0000_0000_0000_0000

  datatype ByteOrder = LittleEndian | BigEndian

  function Pow256(n: nat): (p: nat)
    ensures p > 0
  {
    if n == 0 then 1 else 256 * Pow256(n - 1)
  }

  /** The n low-order bytes of v, least significant first. */
  function LeBytes(v: nat, n: nat): (r: seq<byte>)
    ensures |r| == n
  {
    if n == 0 then [] else [(v % 256) as byte] + LeBytes(v / 256, n - 1)
  }

  /** The value of a little-endian byte string. */
  function LeValue(s: seq<byte>): (v: nat)
    ensures v < Pow256(|s|)
  {
    if s == [] then 0 else s[0] as nat + 256 * LeValue(s[1..])
  }

  function Reverse<T>(s: seq<T>): (r: seq<T>)
    ensures |r| == |s|
    ensures forall i :: 0 <= i < |s| ==> r[i] == s[|s| - 1 - i]
  {
    if s == [] then [] else Reverse(s[1..]) + [s[0]]
  }

  lemma ReverseReverse<T>(s: seq<T>)
    ensures Reverse(Reverse(s)) == s
  {
    assert forall i :: 0 <= i < |s| ==> Reverse(Reverse(s))[i] == s[i];
  }

  lemma {:induction false} LeRoundTrip(v: nat, n: nat)
    requires v < Pow256(n)
    ensures LeValue(LeBytes(v, n)) == v
  {
    if n > 0 {
      LeRoundTrip(v / 256, n - 1);
      assert LeBytes(v, n)[1..] == LeBytes(v / 256, n - 1);
    }
  }

  lemma {:induction false} LeBytesRoundTrip(s: seq<byte>)
    ensures LeBytes(LeValue(s), |s|) == s
  {
    if s != [] {
      LeBytesRoundTrip(s[1..]);
      var v := LeValue(s);
      assert v % 256 == s[0] as nat && v / 256 == LeValue(s[1..]);
    }
  }

  lemma WordLimitIsPow()
    ensures Pow256(WordSize) == WordLimit
  {
    assert Pow256(8) == 0x1_0000_0000_0000_0000 by {
      assert Pow256(4) == 0x1_0000_0000;
    }
  }

  /** The eight bytes that hold w in memory. */
  function EncodeWord(order: ByteOrder, w: Word): (r: seq<byte>)
    ensures |r| == WordSize
  {
    var le := LeBytes(w, WordSize);
    if order == LittleEndian then le else Reverse(le)
  }

  /** The word that eight bytes in memory hold. */
  function DecodeWord(order: ByteOrder, s: seq<byte>): (w: Word)
    requires |s| == WordSize
  {
    WordLimitIsPow();
    if order == LittleEndian then LeValue(s) else LeValue(Reverse(s))
  }

  lemma WordRoundTrip(order: ByteOrder, w: Word)
    ensures DecodeWord(order, EncodeWord(order, w)) == w
  {
    WordLimitIsPow();
    LeRoundTrip(w, WordSize);
    if order == BigEndian {
      ReverseReverse(LeBytes(w, WordSize));
    }
  }

  /** Every eight bytes are the encoding of the word they hold. */
  lemma WordBytesRoundTrip(order: ByteOrder, s: seq<byte>)
    requires |s| == WordSize
    ensures EncodeWord(order, DecodeWord(order, s)) == s
  {
    if order == LittleEndian {
      LeBytesRoundTrip(s);
    } else {
      LeBytesRoundTrip(Reverse(s));
      ReverseReverse(s);
    }
  }

  /** An ASCII string literal as the bytes a std::string holds. */
  function Ascii(s: string): (r: seq<byte>)
    requires forall i :: 0 <= i < |s| ==> s[i] as int < 0x80
    ensures |r| == |s| && forall i :: 0 <= i < |s| ==> r[i] as int == s[i] as int
  {
    if s == [] then [] else [s[0] as int as byte] + Ascii(s[1..])
  }

  function Zeros(n: nat): (r: seq<byte>)
    ensures |r| == n && forall i :: 0 <= i < n ==> r[i] == 0
  {
    seq(n, _ => 0)
  }
}
