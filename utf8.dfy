/**
 * UTF-8 as defined in RFC 3629 (section 3, the encoding table; section 4, the
 * byte-sequence syntax), decoded the way Go's unicode/utf8.DecodeRune does it:
 * a well-formed sequence yields its code point and length, and anything else
 * (an overlong form, a surrogate, a value above U+10FFFF, a stray continuation
 * byte, a truncated prefix) yields U+FFFD with length 1.
 */
module Utf8 {

  /** One byte of input. */
  newtype byte = x: int | 0 <= x < 256

  /** Go's utf8.RuneError (and unicode.ReplacementChar), U+FFFD. */
  const RuneError: int := 0xFFFD

  /** The largest Unicode code point. */
  const MaxRune: int := 0x10FFFF

  /** A Unicode scalar value: a code point that is not a surrogate (RFC 3629, section 3). */
  predicate IsScalar(r: int) {
    0 <= r <= MaxRune && !(0xD800 <= r <= 0xDFFF)
  }

  /** The pair (rune, size) that utf8.DecodeRune returns. */
  datatype Decoded = Decoded(rune: int, size: nat)

  /** The one-byte RuneError by which a decoder reports an invalid or truncated sequence. */
  predicate IsInvalid(d: Decoded) {
    d.rune == RuneError && d.size == 1
  }

  predicate IsContinuation(b: byte) {
    0x80 <= b <= 0xBF
  }

  /** The length of the sequence a leading byte announces, or 0 when the byte cannot lead one. */
  function SeqLen(b0: byte): (n: nat)
    ensures n <= 4
  {
    if b0 < 0x80 then 1
    else if b0 < 0xC2 then 0
    else if b0 < 0xE0 then 2
    else if b0 < 0xF0 then 3
    else if b0 < 0xF5 then 4
    else 0
  }

  /** The range the second byte must lie in after leading byte b0 (RFC 3629, section 4). */
  function SecondLo(b0: byte): byte {
    if b0 == 0xE0 then 0xA0 else if b0 == 0xF0 then 0x90 else 0x80
  }

  function SecondHi(b0: byte): byte {
    if b0 == 0xED then 0x9F else if b0 == 0xF4 then 0x8F else 0xBF
  }

  /** The number of bytes RFC 3629 uses to encode scalar value r. */
  function EncodedLen(r: int): nat {
    if r < 0x80 then 1 else if r < 0x800 then 2 else if r < 0x10000 then 3 else 4
  }

  /** Decodes the first UTF-8 sequence of p, as utf8.DecodeRune. */
  function DecodeRune(p: seq<byte>): (d: Decoded)
    ensures |p| == 0 ==> d == Decoded(RuneError, 0)
    ensures |p| > 0 ==> 1 <= d.size <= 4 && d.size <= |p|
    ensures |p| > 0 && !IsInvalid(d) ==> IsScalar(d.rune) && d.size == EncodedLen(d.rune)
    ensures |p| > 0 && p[0] < 0x80 ==> d == Decoded(p[0] as int, 1)
  {
    if |p| == 0 then Decoded(RuneError, 0)
    else
      var b0 := p[0];
      var n := SeqLen(b0);
      if n == 1 then Decoded(b0 as int, 1)
      else if n == 0 || |p| < n then Decoded(RuneError, 1)
      else if !(SecondLo(b0) <= p[1] <= SecondHi(b0)) then Decoded(RuneError, 1)
      else if n == 2 then
        Decoded((b0 as int - 0xC0) * 64 + (p[1] as int - 0x80), 2)
      else if !IsContinuation(p[2]) then Decoded(RuneError, 1)
      else if n == 3 then
        Decoded((b0 as int - 0xE0) * 4096 + (p[1] as int - 0x80) * 64 + (p[2] as int - 0x80), 3)
      else if !IsContinuation(p[3]) then Decoded(RuneError, 1)
      else
        Decoded((b0 as int - 0xF0) * 262144 + (p[1] as int - 0x80) * 4096
                + (p[2] as int - 0x80) * 64 + (p[3] as int - 0x80), 4)
  }

  /**
   * utf8.FullRune: p begins with a complete encoding, or with bytes that are
   * already invalid whatever follows them. It is false exactly for the empty
   * sequence and for a proper prefix of a well-formed sequence.
   */
  predicate FullRune(p: seq<byte>) {
    if |p| == 0 then false
    else
      var n := SeqLen(p[0]);
      if n <= 1 || |p| >= n then true
      else if |p| > 1 && !(SecondLo(p[0]) <= p[1] <= SecondHi(p[0])) then true
      else if |p| > 2 && !IsContinuation(p[2]) then true
      else false
  }

  /** The RFC 3629 encoding of a scalar value (section 3). */
  function Encode(r: int): (e: seq<byte>)
    requires IsScalar(r)
    ensures |e| == EncodedLen(r)
  {
    if r < 0x80 then [r as byte]
    else if r < 0x800 then [(0xC0 + r / 64) as byte, (0x80 + r % 64) as byte]
    else if r < 0x10000 then
      [(0xE0 + r / 4096) as byte, (0x80 + (r / 64) % 64) as byte, (0x80 + r % 64) as byte]
    else
      [(0xF0 + r / 262144) as byte, (0x80 + (r / 4096) % 64) as byte,
       (0x80 + (r / 64) % 64) as byte, (0x80 + r % 64) as byte]
  }

  /** The concatenated encodings of a sequence of scalar values. */
  function EncodeAll(rs: seq<int>): seq<byte>
    requires forall i :: 0 <= i < |rs| ==> IsScalar(rs[i])
  {
    if rs == [] then [] else Encode(rs[0]) + EncodeAll(rs[1..])
  }

  /** Every encoding decodes back to its scalar value, whatever bytes follow it. */
  lemma DecodeEncode(r: int, rest: seq<byte>)
    requires IsScalar(r)
    ensures DecodeRune(Encode(r) + rest) == Decoded(r, |Encode(r)|)
  {
    if r < 0x80 {
      assert (Encode(r) + rest)[0] == r as byte;
    } else if r < 0x800 {
      DecodeEncode2(r, rest);
    } else if r < 0x10000 {
      DecodeEncode3(r, rest);
    } else {
      DecodeEncode4(r, rest);
    }
  }

  // DecodeEncode by encoded length.

  lemma DecodeEncode2(r: int, rest: seq<byte>)
    requires 0x80 <= r < 0x800
    ensures DecodeRune(Encode(r) + rest) == Decoded(r, 2)
  {
    var p := Encode(r) + rest;
    assert p[0] as int == 0xC0 + r / 64 && p[1] as int == 0x80 + r % 64;
  }

  lemma DecodeEncode3(r: int, rest: seq<byte>)
    requires IsScalar(r) && 0x800 <= r < 0x10000
    ensures DecodeRune(Encode(r) + rest) == Decoded(r, 3)
  {
    var p := Encode(r) + rest;
    var c0, c1, c2 := r / 4096, (r / 64) % 64, r % 64;
    assert p[0] as int == 0xE0 + c0 && p[1] as int == 0x80 + c1 && p[2] as int == 0x80 + c2;
    assert r / 64 == c0 * 64 + c1;
    Decode3(p, c0, c1, c2);
  }

  lemma DecodeEncode4(r: int, rest: seq<byte>)
    requires IsScalar(r) && 0x10000 <= r
    ensures DecodeRune(Encode(r) + rest) == Decoded(r, 4)
  {
    var p := Encode(r) + rest;
    var c0, c1, c2, c3 := r / 262144, (r / 4096) % 64, (r / 64) % 64, r % 64;
    assert p[0] as int == 0xF0 + c0 && p[1] as int == 0x80 + c1;
    assert p[2] as int == 0x80 + c2 && p[3] as int == 0x80 + c3;
    assert r / 4096 == c0 * 64 + c1;
    assert r / 64 == (r / 4096) * 64 + c2;
    Decode4(p, c0, c1, c2, c3);
  }

  lemma Decode3(p: seq<byte>, c0: int, c1: int, c2: int)
    requires 0 <= c1 < 64 && 0 <= c2 < 64
    requires IsScalar(c0 * 4096 + c1 * 64 + c2) && 0x800 <= c0 * 4096 + c1 * 64 + c2 < 0x10000
    requires |p| >= 3 && p[0] as int == 0xE0 + c0 && p[1] as int == 0x80 + c1 && p[2] as int == 0x80 + c2
    ensures DecodeRune(p) == Decoded(c0 * 4096 + c1 * 64 + c2, 3)
  {
    assert 0 <= c0 < 16;
  }

  lemma Decode4(p: seq<byte>, c0: int, c1: int, c2: int, c3: int)
    requires 0 <= c1 < 64 && 0 <= c2 < 64 && 0 <= c3 < 64
    requires 0x10000 <= c0 * 262144 + c1 * 4096 + c2 * 64 + c3 <= MaxRune
    requires |p| >= 4 && p[0] as int == 0xF0 + c0 && p[1] as int == 0x80 + c1
    requires p[2] as int == 0x80 + c2 && p[3] as int == 0x80 + c3
    ensures DecodeRune(p) == Decoded(c0 * 262144 + c1 * 4096 + c2 * 64 + c3, 4)
  {
    assert 0 <= c0 < 5;
  }

  /** Whatever DecodeRune accepts is the encoding of the scalar value it returns. */
  lemma EncodeDecode(p: seq<byte>)
    requires |p| > 0 && !IsInvalid(DecodeRune(p))
    ensures IsScalar(DecodeRune(p).rune)
    ensures Encode(DecodeRune(p).rune) == p[..DecodeRune(p).size]
  {
    var d := DecodeRune(p);
    if d.size == 2 {
      EncodeGroups2(p[0] as int - 0xC0, p[1] as int - 0x80);
      assert p[..2] == [p[0], p[1]];
    } else if d.size == 3 {
      EncodeGroups3(p[0] as int - 0xE0, p[1] as int - 0x80, p[2] as int - 0x80);
      assert p[..3] == [p[0], p[1], p[2]];
    } else if d.size == 4 {
      EncodeGroups4(p[0] as int - 0xF0, p[1] as int - 0x80, p[2] as int - 0x80, p[3] as int - 0x80);
      assert p[..4] == [p[0], p[1], p[2], p[3]];
    }
  }

  // EncodeDecode by encoded length, on the 6-bit groups of the value.

  lemma EncodeGroups2(c0: int, c1: int)
    requires 0 <= c1 < 64 && 0x80 <= c0 * 64 + c1 < 0x800
    ensures Encode(c0 * 64 + c1) == [(0xC0 + c0) as byte, (0x80 + c1) as byte]
  {
    Reassemble2(c0, c1);
  }

  lemma EncodeGroups3(c0: int, c1: int, c2: int)
    requires 0 <= c1 < 64 && 0 <= c2 < 64
    requires IsScalar(c0 * 4096 + c1 * 64 + c2) && 0x800 <= c0 * 4096 + c1 * 64 + c2 < 0x10000
    ensures Encode(c0 * 4096 + c1 * 64 + c2)
         == [(0xE0 + c0) as byte, (0x80 + c1) as byte, (0x80 + c2) as byte]
  {
    Reassemble3(c0, c1, c2);
  }

  lemma EncodeGroups4(c0: int, c1: int, c2: int, c3: int)
    requires 0 <= c1 < 64 && 0 <= c2 < 64 && 0 <= c3 < 64
    requires 0x10000 <= c0 * 262144 + c1 * 4096 + c2 * 64 + c3 <= MaxRune
    ensures Encode(c0 * 262144 + c1 * 4096 + c2 * 64 + c3)
         == [(0xF0 + c0) as byte, (0x80 + c1) as byte, (0x80 + c2) as byte, (0x80 + c3) as byte]
  {
    Reassemble4(c0, c1, c2, c3);
  }

  // The arithmetic behind EncodeDecode: splitting a value assembled from
  // 6-bit groups gives the groups back.

  lemma Reassemble2(c0: int, c1: int)
    requires 0 <= c1 < 64
    ensures (c0 * 64 + c1) / 64 == c0 && (c0 * 64 + c1) % 64 == c1
  {
  }

  lemma Reassemble3(c0: int, c1: int, c2: int)
    requires 0 <= c1 < 64 && 0 <= c2 < 64
    ensures var r := c0 * 4096 + c1 * 64 + c2;
      r / 4096 == c0 && (r / 64) % 64 == c1 && r % 64 == c2
  {
    var r := c0 * 4096 + c1 * 64 + c2;
    assert r == (c0 * 64 + c1) * 64 + c2;
    Reassemble2(c0 * 64 + c1, c2);
    Reassemble2(c0, c1);
    assert r / 64 == c0 * 64 + c1;
    assert r / 4096 == (r / 64) / 64;
  }

  lemma Reassemble4(c0: int, c1: int, c2: int, c3: int)
    requires 0 <= c1 < 64 && 0 <= c2 < 64 && 0 <= c3 < 64
    ensures var r := c0 * 262144 + c1 * 4096 + c2 * 64 + c3;
      r / 262144 == c0 && (r / 4096) % 64 == c1 && (r / 64) % 64 == c2 && r % 64 == c3
  {
    var r := c0 * 262144 + c1 * 4096 + c2 * 64 + c3;
    var h := c0 * 64 + c1;
    assert r == h * 4096 + c2 * 64 + c3;
    Reassemble3(h, c2, c3);
    Reassemble2(c0, c1);
    assert r / 4096 == h;
    assert r / 262144 == (r / 4096) / 64;
  }

  /** A sequence that FullRune accepts decodes the same whatever is appended to it. */
  lemma FullRuneStable(p: seq<byte>, q: seq<byte>)
    requires FullRune(p)
    ensures FullRune(p + q)
    ensures DecodeRune(p + q) == DecodeRune(p)
  {
    var pq := p + q;
    assert pq[0] == p[0];
    assert |p| > 1 ==> pq[1] == p[1];
    assert |p| > 2 ==> pq[2] == p[2];
    assert |p| > 3 ==> pq[3] == p[3];
  }

  /** A non-empty sequence that FullRune rejects decodes as the one-byte RuneError. */
  lemma NotFullRuneInvalid(p: seq<byte>)
    requires |p| > 0 && !FullRune(p)
    ensures IsInvalid(DecodeRune(p))
  {
  }

  /** A sequence that starts with a continuation byte decodes as the one-byte RuneError. */
  lemma ContinuationInvalid(p: seq<byte>)
    requires |p| > 0 && IsContinuation(p[0])
    ensures IsInvalid(DecodeRune(p))
    ensures FullRune(p)
  {
  }

  /** Every byte after the first of an encoding is a continuation byte. */
  lemma EncodeTail(r: int, k: nat)
    requires IsScalar(r) && 1 <= k < |Encode(r)|
    ensures IsContinuation(Encode(r)[k])
  {
  }

  /** A proper, non-empty prefix of an encoding is not yet a full rune. */
  lemma TruncatedNotFull(r: int, j: nat)
    requires IsScalar(r) && 0 < j < |Encode(r)|
    ensures !FullRune(Encode(r)[..j])
  {
    DecodeEncode(r, []);
    var e := Encode(r);
    assert e + [] == e;
    var p := e[..j];
    assert p[0] == e[0];
    assert j > 1 ==> p[1] == e[1];
    assert j > 2 ==> p[2] == e[2];
  }

  /**
   * The converse of TruncatedNotFull: a non-empty sequence that FullRune
   * rejects is a proper prefix of the encoding of some scalar value, so
   * more bytes can still complete it.
   */
  lemma NotFullIsPrefix(p: seq<byte>)
    requires |p| > 0 && !FullRune(p)
    ensures exists r: int, j: nat :: IsScalar(r) && 0 < j < |Encode(r)| && Encode(r)[..j] == p
  {
    var n := SeqLen(p[0]);
    var second: seq<byte> := if |p| == 1 then [SecondLo(p[0])] else [];
    var full := p + second + seq(n - |p| - |second|, _ => 0x80 as byte);
    assert |full| == n;
    assert full[..|p|] == p;
    assert full[1] == if |p| > 1 then p[1] else SecondLo(p[0]);
    assert n > 2 ==> IsContinuation(full[2]);
    assert n > 3 ==> IsContinuation(full[3]);
    EncodeDecode(full);
    var r := DecodeRune(full).rune;
    assert full[..n] == full;
    assert Encode(r)[..|p|] == p;
  }

  /**
   * FullRune is false exactly for the empty sequence and for the proper,
   * non-empty prefixes of encodings: it tells the bytes that more input
   * could still complete from those that are already decided.
   */
  lemma FullRuneIff(p: seq<byte>)
    ensures !FullRune(p) <==>
      |p| == 0 || exists r: int, j: nat :: IsScalar(r) && 0 < j < |Encode(r)| && Encode(r)[..j] == p
  {
    if |p| > 0 && !FullRune(p) {
      NotFullIsPrefix(p);
    }
    if |p| > 0 && exists r: int, j: nat :: IsScalar(r) && 0 < j < |Encode(r)| && Encode(r)[..j] == p {
      var r: int, j: nat :| IsScalar(r) && 0 < j < |Encode(r)| && Encode(r)[..j] == p;
      TruncatedNotFull(r, j);
    }
  }

  /** The byte values C0, C1 and F5 to FF, which never appear in UTF-8 (RFC 3629, section 1). */
  predicate NeverAppears(b: byte) {
    b == 0xC0 || b == 0xC1 || b >= 0xF5
  }

  /**
   * A byte that never appears in UTF-8 cannot complete or extend a
   * sequence: appended to p it changes nothing about how p begins.
   */
  lemma DecodeBeforeNever(p: seq<byte>, b: byte)
    requires |p| > 0 && NeverAppears(b)
    ensures DecodeRune(p + [b]) == DecodeRune(p)
  {
    var pb := p + [b];
    assert pb[0] == p[0];
    assert |p| > 1 ==> pb[1] == p[1];
    assert |p| > 2 ==> pb[2] == p[2];
    assert |p| > 3 ==> pb[3] == p[3];
    assert pb[|p|] == b;
  }

  /** Any bytes followed by one that never appears in UTF-8 begin with a full rune. */
  lemma FullRuneBeforeNever(p: seq<byte>, b: byte)
    requires NeverAppears(b)
    ensures FullRune(p + [b])
  {
    var pb := p + [b];
    assert pb[0] == if |p| > 0 then p[0] else b;
    assert |p| > 1 ==> pb[1] == p[1];
    assert |p| > 2 ==> pb[2] == p[2];
    assert pb[|p|] == b;
  }
}
