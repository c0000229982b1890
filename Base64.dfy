/** to_b64 of websock.h: base64 with the standard alphabet and `=` padding,
    as section 4 of RFC 4648 defines it.

    B64 is the reference definition, group by group as the RFC states it: a
    partial last group is padded with zero bytes, encoded, and its unused
    characters replaced by `=`. ToB64 is the loop of the source, with the
    source's own shifts for the tail, proved equal to B64. B64Decode is an
    independent inverse used to show that nothing is lost.

    The source works on `unsigned` values; every value it forms stays below
    2^24, so no 32-bit wrap-around can occur and `u >> k & 0x3F` and
    `u << k & 0x3F` are written as `u / 2^k % 64` and `u * 2^k % 64`. The
    reference definition takes the four 6-bit slices of a group straight
    from its three bytes. */
module Base64 {

  /** An `unsigned char`. */
  type byte = x: int | 0 <= x < 256

  /** The 64 characters, in the three pieces the source writes them in. */
  const Alphabet: string := "ABCDEFGHIJKLMNOPQRSTUVWXYZ" + "abcdefghijklmnopqrstuvwxyz" + "0123456789+/"
  const Pad: char := '='
  const Nul: char := '\0'

  /** Number of characters (NUL excluded) to_b64 writes for n input bytes. */
  function EncodedLen(n: nat): nat
  {
    4 * ((n + 2) / 3)
  }

  /** The encoded length is a whole number of 4-character groups, and the
      fewest that hold n bytes at three bytes per group. */
  lemma EncodedLenBounds(n: nat)
    ensures EncodedLen(n) % 4 == 0
    ensures 4 * n <= 3 * EncodedLen(n) < 4 * n + 12
  {
    var g := (n + 2) / 3;
    assert 3 * g <= n + 2 < 3 * g + 3;
    assert 3 * EncodedLen(n) == 4 * (3 * g);
  }

  /** The alphabet character for a 6-bit value, by ranges: A-Z, a-z, 0-9,
      `+` and `/`. AlphabetTable shows this is the source's table lookup. */
  function Char6(x: int): (c: char)
    requires 0 <= x < 64
    ensures c != Pad && c != Nul
  {
    if x < 26 then ('A' as int + x) as char
    else if x < 52 then ('a' as int + (x - 26)) as char
    else if x < 62 then ('0' as int + (x - 52)) as char
    else if x == 62 then '+'
    else '/'
  }

  /** The four characters of a group of three bytes: the 6-bit slices of
      the 24 bits b0 b1 b2, most significant first. */
  function Quad(b0: byte, b1: byte, b2: byte): (q: seq<char>)
    ensures |q| == 4
  {
    [Char6(b0 / 4), Char6(b0 % 4 * 16 + b1 / 16), Char6(b1 % 16 * 4 + b2 / 64), Char6(b2 % 64)]
  }

  /** Base64 encoding of s, without the trailing NUL. */
  function B64(s: seq<byte>): (r: seq<char>)
    ensures |r| == EncodedLen(|s|)
    decreases |s|
  {
    if |s| >= 3 then Quad(s[0], s[1], s[2]) + B64(s[3..])
    else if |s| == 2 then Quad(s[0], s[1], 0)[..3] + [Pad]
    else if |s| == 1 then Quad(s[0], 0, 0)[..2] + [Pad, Pad]
    else []
  }

  // ---------------------------------------------------------------------
  // Decoding: the inverse of B64
  // ---------------------------------------------------------------------

  /** The 6-bit value of an alphabet character; 0 for anything else. */
  function SextetOf(c: char): (x: int)
    ensures 0 <= x < 64
  {
    if 'A' <= c <= 'Z' then c as int - 'A' as int
    else if 'a' <= c <= 'z' then c as int - 'a' as int + 26
    else if '0' <= c <= '9' then c as int - '0' as int + 52
    else if c == '+' then 62
    else if c == '/' then 63
    else 0
  }

  /** The three bytes whose 24 bits are the 6-bit values of the four
      characters of t. */
  function Unquad(t: seq<char>): (b: seq<byte>)
    requires |t| == 4
    ensures |b| == 3
  {
    var x0, x1, x2, x3 := SextetOf(t[0]), SextetOf(t[1]), SextetOf(t[2]), SextetOf(t[3]);
    [x0 * 4 + x1 / 16, x1 % 16 * 16 + x2 / 4, x2 % 4 * 64 + x3]
  }

  /** Decodes groups of four characters; a group with `=` in its third or
      fourth place is the last one. */
  function B64Decode(t: seq<char>): (r: seq<byte>)
    decreases |t|
  {
    if |t| < 4 then []
    else
      var b := Unquad(t[..4]);
      if t[2] == Pad then b[..1]
      else if t[3] == Pad then b[..2]
      else b + B64Decode(t[4..])
  }

  // ---------------------------------------------------------------------
  // The alphabet
  // ---------------------------------------------------------------------

  /** Char6 is the lookup in the table of to_b64. */
  lemma AlphabetTable(i: nat)
    requires i < 64
    ensures |Alphabet| == 64 && Alphabet[i] == Char6(i)
  {
    var upper, lower, rest := "ABCDEFGHIJKLMNOPQRSTUVWXYZ", "abcdefghijklmnopqrstuvwxyz", "0123456789+/";
    assert Alphabet == upper + lower + rest;
    if i < 26 {
      assert upper[i] == ('A' as int + i) as char;
    } else if i < 52 {
      assert lower[i - 26] == ('a' as int + (i - 26)) as char;
    } else {
      assert rest[i - 52] == if i < 62 then ('0' as int + (i - 52)) as char else if i == 62 then '+' else '/';
    }
  }

  /** SextetOf reads back the 6-bit value of each of the 64 characters, and
      none of them is the pad character. */
  lemma AlphabetInverse(x: int)
    requires 0 <= x < 64
    ensures SextetOf(Char6(x)) == x && Char6(x) != Pad
  {
  }

  /** The pad character is not one of the 64. */
  lemma PadNotInAlphabet()
    ensures Pad !in Alphabet
  {
    forall i | 0 <= i < |Alphabet|
      ensures Alphabet[i] != Pad
    {
      AlphabetTable(i);
      AlphabetInverse(i);
    }
  }

  // ---------------------------------------------------------------------
  // Properties of B64
  // ---------------------------------------------------------------------

  /** Encoding a whole number of groups followed by anything is the
      concatenation of the two encodings. */
  lemma {:induction false} B64Append(a: seq<byte>, b: seq<byte>)
    requires |a| % 3 == 0
    ensures B64(a + b) == B64(a) + B64(b)
    decreases |a|
  {
    if |a| == 0 {
      assert a + b == b;
    } else {
      var ab := a + b;
      assert ab[3..] == a[3..] + b;
      assert ab[0] == a[0] && ab[1] == a[1] && ab[2] == a[2];
      B64Append(a[3..], b);
    }
  }

  /** Output length: four characters per started group of three bytes; for a
      20-byte SHA-1 digest that is the 28 characters of the accept key. */
  lemma B64Length(s: seq<byte>)
    ensures |B64(s)| == EncodedLen(|s|)
    ensures |s| == 20 ==> |B64(s)| == 28
  {
  }

  /** Dropping k whole groups of input drops their 4 * k characters. */
  lemma {:induction false} B64Drop(s: seq<byte>, k: nat)
    requires 3 * k <= |s|
    ensures 4 * k <= |B64(s)|
    ensures B64(s[3 * k..]) == B64(s)[4 * k..]
    decreases k
  {
    if k > 0 {
      B64Drop(s[3..], k - 1);
      assert s[3..][3 * (k - 1)..] == s[3 * k..];
      assert B64(s) == Quad(s[0], s[1], s[2]) + B64(s[3..]);
    }
  }

  /** Group k of three bytes becomes the four characters of its 6-bit slices. */
  lemma B64FullGroup(s: seq<byte>, k: nat)
    requires 3 * k + 3 <= |s|
    ensures 4 * k + 4 <= |B64(s)|
    ensures B64(s)[4 * k .. 4 * k + 4] == Quad(s[3 * k], s[3 * k + 1], s[3 * k + 2])
  {
    B64Drop(s, k);
    var t := s[3 * k..];
    var q := Quad(s[3 * k], s[3 * k + 1], s[3 * k + 2]);
    assert B64(t) == q + B64(t[3..]) by {
      assert t[0] == s[3 * k] && t[1] == s[3 * k + 1] && t[2] == s[3 * k + 2];
    }
    assert B64(s)[4 * k .. 4 * k + 4] == B64(t)[..4];
  }

  /** Every character of a group is in the alphabet. */
  lemma QuadCharset(b0: byte, b1: byte, b2: byte)
    ensures forall i :: 0 <= i < 4 ==> Quad(b0, b1, b2)[i] in Alphabet
  {
    AlphabetTable(b0 / 4);
    AlphabetTable(b0 % 4 * 16 + b1 / 16);
    AlphabetTable(b1 % 16 * 4 + b2 / 64);
    AlphabetTable(b2 % 64);
  }

  /** Every character of t is in the alphabet or is the pad character. */
  predicate InCharset(t: seq<char>)
  {
    forall i :: 0 <= i < |t| ==> t[i] in Alphabet || t[i] == Pad
  }

  /** The character set is closed under concatenation. */
  lemma CharsetConcat(a: seq<char>, b: seq<char>)
    requires InCharset(a) && InCharset(b)
    ensures InCharset(a + b)
  {
    forall i | 0 <= i < |a + b|
      ensures (a + b)[i] in Alphabet || (a + b)[i] == Pad
    {
      if i >= |a| {
        assert (a + b)[i] == b[i - |a|];
      }
    }
  }

  /** Every character emitted is in the alphabet or is the pad character. */
  lemma {:induction false} B64Charset(s: seq<byte>)
    ensures forall i :: 0 <= i < |B64(s)| ==> B64(s)[i] in Alphabet || B64(s)[i] == Pad
    decreases |s|
  {
    if |s| >= 3 {
      B64Charset(s[3..]);
      var q := Quad(s[0], s[1], s[2]);
      QuadCharset(s[0], s[1], s[2]);
      assert InCharset(q) && InCharset(B64(s[3..]));
      assert B64(s) == q + B64(s[3..]);
      CharsetConcat(q, B64(s[3..]));
    } else if |s| == 2 {
      QuadCharset(s[0], s[1], 0);
    } else if |s| == 1 {
      QuadCharset(s[0], 0, 0);
    }
  }

  /** Number of `=` characters ending the encoding of n bytes. */
  function PadCount(n: nat): (p: nat)
    ensures p < 3 && (n + p) % 3 == 0
  {
    (3 - n % 3) % 3
  }

  /** No character of a group is the pad character. */
  lemma QuadNoPad(b0: byte, b1: byte, b2: byte)
    ensures forall i :: 0 <= i < 4 ==> Quad(b0, b1, b2)[i] != Pad
  {
  }

  /** t ends in exactly p `=` characters and has none before them. */
  predicate PaddedWith(t: seq<char>, p: nat)
  {
    && p <= |t|
    && (forall i :: 0 <= i < |t| - p ==> t[i] != Pad)
    && (forall i :: |t| - p <= i < |t| ==> t[i] == Pad)
  }

  /** Text without `=` in front of padded text keeps the padding. */
  lemma PaddedConcat(q: seq<char>, t: seq<char>, p: nat)
    requires forall i :: 0 <= i < |q| ==> q[i] != Pad
    requires PaddedWith(t, p)
    ensures PaddedWith(q + t, p)
  {
    forall i | 0 <= i < |q + t|
      ensures (q + t)[i] == if i < |q| then q[i] else t[i - |q|]
    {
    }
  }

  /** n and n - 3 leave the same remainder, so need the same padding. */
  lemma PadCountStep(n: nat)
    requires n >= 3
    ensures PadCount(n) == PadCount(n - 3)
  {
  }

  /** One whole group in front keeps the padding of the rest. */
  lemma {:induction false} PaddingStep(s: seq<byte>)
    requires |s| >= 3
    requires PaddedWith(B64(s[3..]), PadCount(|s| - 3))
    ensures PaddedWith(B64(s), PadCount(|s|))
  {
    var q := Quad(s[0], s[1], s[2]);
    var t := B64(s[3..]);
    assert PaddedWith(q + t, PadCount(|s| - 3)) by {
      QuadNoPad(s[0], s[1], s[2]);
      PaddedConcat(q, t, PadCount(|s| - 3));
    }
    PadCountStep(|s|);
    assert B64(s) == q + t;
  }

  /** Two leftover bytes are padded with one `=`. */
  lemma {:induction false} PaddingTwo(s: seq<byte>)
    requires |s| == 2
    ensures PaddedWith(B64(s), PadCount(|s|))
  {
    var q := Quad(s[0], s[1], 0)[..3];
    QuadNoPad(s[0], s[1], 0);
    PaddedConcat(q, [Pad], 1);
    assert B64(s) == q + [Pad];
  }

  /** One leftover byte is padded with `==`. */
  lemma {:induction false} PaddingOne(s: seq<byte>)
    requires |s| == 1
    ensures PaddedWith(B64(s), PadCount(|s|))
  {
    var q := Quad(s[0], 0, 0)[..2];
    QuadNoPad(s[0], 0, 0);
    PaddedConcat(q, [Pad, Pad], 2);
    assert B64(s) == q + [Pad, Pad];
  }

  /** Padding: the encoding ends in exactly PadCount(|s|) `=` characters,
      none for a whole number of groups, `==` for one leftover byte and `=`
      for two, and `=` appears nowhere else. */
  lemma {:induction false} B64Padding(s: seq<byte>)
    ensures PaddedWith(B64(s), PadCount(|s|))
    decreases |s|
  {
    if |s| >= 3 {
      B64Padding(s[3..]);
      PaddingStep(s);
    } else if |s| == 2 {
      PaddingTwo(s);
    } else if |s| == 1 {
      PaddingOne(s);
    }
  }

  /** No character of a group is the NUL character. */
  lemma QuadNoNul(b0: byte, b1: byte, b2: byte)
    ensures Nul !in Quad(b0, b1, b2)
  {
  }

  /** The encoding holds no NUL, so as a C string it ends at the NUL that
      to_b64 writes after it. */
  lemma {:induction false} B64NoNul(s: seq<byte>)
    ensures Nul !in B64(s)
    decreases |s|
  {
    if |s| >= 3 {
      QuadNoNul(s[0], s[1], s[2]);
      B64NoNul(s[3..]);
    } else if |s| == 2 {
      QuadNoNul(s[0], s[1], 0);
    } else if |s| == 1 {
      QuadNoNul(s[0], 0, 0);
    }
  }

  // ---------------------------------------------------------------------
  // Round trip
  // ---------------------------------------------------------------------

  /** The bytes of a group are read back from the 6-bit values of its
      characters. */
  lemma UnquadOfQuad(b0: byte, b1: byte, b2: byte)
    ensures Unquad(Quad(b0, b1, b2)) == [b0, b1, b2]
  {
    var x0, x1, x2, x3 := b0 / 4, b0 % 4 * 16 + b1 / 16, b1 % 16 * 4 + b2 / 64, b2 % 64;
    AlphabetInverse(x0);
    AlphabetInverse(x1);
    AlphabetInverse(x2);
    AlphabetInverse(x3);
    assert x1 / 16 == b0 % 4 && x1 % 16 == b1 / 16;
    assert x2 / 4 == b1 % 16 && x2 % 4 == b2 / 64;
  }

  /** A last group for one byte decodes to that byte. */
  lemma DecodeTailOne(b0: byte)
    ensures B64Decode(B64([b0])) == [b0]
  {
    var t := B64([b0]);
    assert t == Quad(b0, 0, 0)[..2] + [Pad, Pad];
    assert t[..4] == t;
    var x0, x1 := b0 / 4, b0 % 4 * 16;
    AlphabetInverse(x0);
    AlphabetInverse(x1);
    assert Unquad(t)[0] == x0 * 4 + x1 / 16;
  }

  /** A group of four characters with `=` only in its last place decodes to
      the first two bytes of its 24 bits. */
  lemma DecodeLastTwo(q: seq<char>, t: seq<char>)
    requires |q| == 4 && q[2] != Pad && t == q[..3] + [Pad]
    ensures B64Decode(t) == Unquad(q)[..2]
  {
    assert t[..4] == t;
    assert t[0] == q[0] && t[1] == q[1] && t[2] == q[2];
  }

  /** A last group for two bytes decodes to those bytes. */
  lemma DecodeTailTwo(b0: byte, b1: byte)
    ensures B64Decode(B64([b0, b1])) == [b0, b1]
  {
    var q := Quad(b0, b1, 0);
    var t := q[..3] + [Pad];
    assert B64([b0, b1]) == t;
    UnquadOfQuad(b0, b1, 0);
    AlphabetInverse(b1 % 16 * 4);
    DecodeLastTwo(q, t);
  }

  /** A group of four characters without `=` decodes to its three bytes,
      and decoding goes on after it. */
  lemma DecodeFullGroup(q: seq<char>, rest: seq<char>)
    requires |q| == 4 && q[2] != Pad && q[3] != Pad
    ensures B64Decode(q + rest) == Unquad(q) + B64Decode(rest)
  {
    var t := q + rest;
    assert t[..4] == q && t[4..] == rest;
  }

  /** Round trip: decoding the encoding gives back the input, so B64 loses
      nothing. */
  lemma {:induction false} B64RoundTrip(s: seq<byte>)
    ensures B64Decode(B64(s)) == s
    decreases |s|
  {
    if |s| >= 3 {
      var q := Quad(s[0], s[1], s[2]);
      assert B64Decode(B64(s)) == Unquad(q) + B64Decode(B64(s[3..])) by {
        assert B64(s) == q + B64(s[3..]);
        QuadNoPad(s[0], s[1], s[2]);
        DecodeFullGroup(q, B64(s[3..]));
      }
      assert Unquad(q) == s[..3] by {
        UnquadOfQuad(s[0], s[1], s[2]);
      }
      B64RoundTrip(s[3..]);
      assert s == s[..3] + s[3..];
    } else if |s| == 2 {
      DecodeTailTwo(s[0], s[1]);
      assert s == [s[0], s[1]];
    } else if |s| == 1 {
      DecodeTailOne(s[0]);
      assert s == [s[0]];
    }
  }

  /** Two inputs with the same encoding are equal. */
  lemma B64Injective(a: seq<byte>, b: seq<byte>)
    requires B64(a) == B64(b)
    ensures a == b
  {
    B64RoundTrip(a);
    B64RoundTrip(b);
  }

  // ---------------------------------------------------------------------
  // The sample of RFC 6455
  // ---------------------------------------------------------------------

  /** The SHA-1 digest of the sample handshake in section 1.3 of RFC 6455. */
  const Rfc6455SampleDigest: seq<byte> :=
    [0xb3, 0x7a, 0x4f] + ([0x2c, 0xc0, 0x62] + ([0x4f, 0x16, 0x90] + ([0xf6, 0x46, 0x06] +
    ([0xcf, 0x38, 0x59] + ([0x45, 0xb2, 0xbe] + [0xc4, 0xea])))))

  /** The accept value given for it in section 1.3 of RFC 6455,
      "s3pPLMBiTxaQ9kYGzzhZRbK+xOo=", written in groups of four. */
  const Rfc6455SampleAccept: string :=
    "s3pP" + ("LMBi" + ("TxaQ" + ("9kYG" + ("zzhZ" + ("RbK+" + "xOo=")))))

  /** The seven groups of the sample digest, one by one. */
  lemma SampleGroups()
    ensures Quad(0xb3, 0x7a, 0x4f) == "s3pP"
    ensures Quad(0x2c, 0xc0, 0x62) == "LMBi"
    ensures Quad(0x4f, 0x16, 0x90) == "TxaQ"
    ensures Quad(0xf6, 0x46, 0x06) == "9kYG"
    ensures Quad(0xcf, 0x38, 0x59) == "zzhZ"
    ensures Quad(0x45, 0xb2, 0xbe) == "RbK+"
    ensures B64([0xc4, 0xea]) == "xOo="
  {
    assert Quad(0xc4, 0xea, 0x00)[..3] == "xOo";
  }

  /** A whole group in front of the input encodes in front of the output. */
  lemma B64Cons(b0: byte, b1: byte, b2: byte, rest: seq<byte>)
    ensures B64([b0, b1, b2] + rest) == Quad(b0, b1, b2) + B64(rest)
  {
    assert ([b0, b1, b2] + rest)[3..] == rest;
  }

  /** That digest encodes to that accept value. */
  lemma B64Rfc6455Sample()
    ensures B64(Rfc6455SampleDigest) == Rfc6455SampleAccept
  {
    SampleGroups();
    var r6: seq<byte> := [0x45, 0xb2, 0xbe] + [0xc4, 0xea];
    var r5: seq<byte> := [0xcf, 0x38, 0x59] + r6;
    var r4: seq<byte> := [0xf6, 0x46, 0x06] + r5;
    var r3: seq<byte> := [0x4f, 0x16, 0x90] + r4;
    var r2: seq<byte> := [0x2c, 0xc0, 0x62] + r3;
    B64Cons(0x45, 0xb2, 0xbe, [0xc4, 0xea]);
    B64Cons(0xcf, 0x38, 0x59, r6);
    B64Cons(0xf6, 0x46, 0x06, r5);
    B64Cons(0x4f, 0x16, 0x90, r4);
    B64Cons(0x2c, 0xc0, 0x62, r3);
    B64Cons(0xb3, 0x7a, 0x4f, r2);
  }

  // ---------------------------------------------------------------------
  // The encoder of the source
  // ---------------------------------------------------------------------

  /** The group of B64 that starts at 4 * g, character by character. */
  lemma GroupAt(src: seq<byte>, n: nat, g: nat)
    requires 3 * g + 3 <= n <= |src|
    ensures 4 * g + 4 <= |B64(src[..n])|
    ensures forall i :: 4 * g <= i < 4 * g + 4 ==>
              B64(src[..n])[i] == Quad(src[3 * g], src[3 * g + 1], src[3 * g + 2])[i - 4 * g]
  {
    var s := src[..n];
    B64FullGroup(s, g);
    assert s[3 * g] == src[3 * g] && s[3 * g + 1] == src[3 * g + 1] && s[3 * g + 2] == src[3 * g + 2];
    forall i | 4 * g <= i < 4 * g + 4
      ensures B64(s)[i] == B64(s)[4 * g .. 4 * g + 4][i - 4 * g]
    {
    }
  }

  /** After g whole groups, B64 ends with the encoding of the k leftover bytes. */
  lemma TailAt(src: seq<byte>, n: nat, g: nat, k: nat)
    requires 3 * g + k == n <= |src|
    ensures |B64(src[..n])| == 4 * g + EncodedLen(k)
    ensures B64(src[..n])[4 * g..] == B64(src[3 * g .. 3 * g + k])
  {
    var s := src[..n];
    B64Drop(s, g);
    assert s[3 * g..] == src[3 * g .. 3 * g + k];
    EncodedLenAfter(g, k);
  }

  /** The text put together in place: before is the buffer at the start, mid
      after the first head characters of text were written, tail after the
      rest of text was written behind them; the NUL then goes at |text|. */
  lemma Spliced(text: seq<char>, head: nat, before: seq<char>, mid: seq<char>, tail: seq<char>)
    requires head <= |text| < |tail| == |mid| == |before|
    requires forall i :: 0 <= i < head ==> mid[i] == text[i]
    requires forall i :: head <= i < |mid| ==> mid[i] == before[i]
    requires forall i :: head <= i < |text| ==> tail[i] == text[head..][i - head]
    requires forall i :: 0 <= i < |tail| && !(head <= i < |text|) ==> tail[i] == mid[i]
    ensures tail[|text| := Nul] == text + [Nul] + before[|text| + 1..]
  {
    var fin := tail[|text| := Nul];
    forall i | 0 <= i < |text|
      ensures fin[i] == text[i]
    {
      if i >= head {
        assert text[head..][i - head] == text[i];
      }
    }
    assert fin == text + [Nul] + before[|text| + 1..];
  }

  /** What to_b64 leaves in dst, put together from the loop's part, the
      tail's part and the NUL: mid is dst after the loop, tail before the
      NUL is written at wr. */
  lemma Assembled(src: seq<byte>, n: nat, rd: nat, head: nat, wr: nat, k: nat,
                  before: seq<char>, mid: seq<char>, tail: seq<char>)
    requires n <= |src| && rd % 3 == 0 && head == 4 * (rd / 3) && rd + k == n
    requires |before| == |mid| == |tail| && wr < |tail| && wr == head + EncodedLen(k)
    requires forall i :: 0 <= i < head && i < |B64(src[..n])| ==> mid[i] == B64(src[..n])[i]
    requires forall i :: head <= i < |mid| ==> mid[i] == before[i]
    requires forall i :: head <= i < wr && i - head < |B64(src[rd..rd + k])| ==>
               tail[i] == B64(src[rd..rd + k])[i - head]
    requires forall i :: 0 <= i < |tail| && !(head <= i < wr) ==> tail[i] == mid[i]
    ensures tail[wr := Nul] == B64(src[..n]) + [Nul] + before[wr + 1..]
  {
    var text := B64(src[..n]);
    assert |text| == wr && text[head..] == B64(src[rd..rd + k]) by {
      DivBy3(rd, rd / 3, 0);
      TailAt(src, n, rd / 3, k);
    }
    Spliced(text, head, before, mid, tail);
  }

  // Quotient and remainder by the constant divisors the shifts stand for,
  // read off a decomposition u == d * q + r with 0 <= r < d.

  lemma DivBy3(u: int, q: int, r: int)
    requires 0 <= r < 3 && u == 3 * q + r
    ensures u / 3 == q && u % 3 == r
  {
  }

  /** g whole groups in front add 4 * g characters to the encoded length. */
  lemma EncodedLenAfter(g: nat, k: nat)
    ensures EncodedLen(3 * g + k) == 4 * g + EncodedLen(k)
  {
    DivBy3(k + 2, (k + 2) / 3, (k + 2) % 3);
    DivBy3(3 * g + k + 2, g + (k + 2) / 3, (k + 2) % 3);
  }

  lemma DivBy16(u: int, q: int, r: int)
    requires 0 <= r < 16 && u == 16 * q + r
    ensures u / 16 == q
  {
  }

  lemma DivBy64(u: int, q: int, r: int)
    requires 0 <= r < 64 && u == 64 * q + r
    ensures u / 64 == q && u % 64 == r
  {
  }

  lemma DivBy1K(u: int, q: int, r: int)
    requires 0 <= r < 0x400 && u == 0x400 * q + r
    ensures u / 0x400 == q
  {
  }

  lemma DivBy4K(u: int, q: int, r: int)
    requires 0 <= r < 0x1000 && u == 0x1000 * q + r
    ensures u / 0x1000 == q
  {
  }

  lemma DivBy256K(u: int, q: int, r: int)
    requires 0 <= r < 0x4_0000 && u == 0x4_0000 * q + r
    ensures u / 0x4_0000 == q
  {
  }

  /** Bits 23..18 of the group value are the top six bits of b0. */
  lemma Slice18(b0: byte, b1: byte, b2: byte)
    ensures (b0 * 0x1_0000 + b1 * 0x100 + b2) / 0x4_0000 % 64 == b0 / 4
  {
    var u := b0 * 0x1_0000 + b1 * 0x100 + b2;
    var q, m := b0 / 4, b0 % 4;
    DivBy256K(u, q, 0x1_0000 * m + 0x100 * b1 + b2);
    DivBy64(q, 0, q);
  }

  /** Bits 17..12: the low two bits of b0 above the top four of b1. */
  lemma Slice12(b0: byte, b1: byte, b2: byte)
    ensures (b0 * 0x1_0000 + b1 * 0x100 + b2) / 0x1000 % 64 == b0 % 4 * 16 + b1 / 16
  {
    var u := b0 * 0x1_0000 + b1 * 0x100 + b2;
    var q, m := b0 / 4, b0 % 4;
    var e, f := b1 / 16, b1 % 16;
    var h := 16 * b0 + e;
    DivBy4K(u, h, 0x100 * f + b2);
    DivBy64(h, q, 16 * m + e);
  }

  /** Bits 11..6: the low four bits of b1 above the top two of b2. */
  lemma Slice6(b0: byte, b1: byte, b2: byte)
    ensures (b0 * 0x1_0000 + b1 * 0x100 + b2) / 0x40 % 64 == b1 % 16 * 4 + b2 / 64
  {
    var u := b0 * 0x1_0000 + b1 * 0x100 + b2;
    var e, f := b1 / 16, b1 % 16;
    var c, d := b2 / 64, b2 % 64;
    var h := 0x400 * b0 + 64 * e + 4 * f + c;
    DivBy64(u, h, d);
    DivBy64(h, 16 * b0 + e, 4 * f + c);
  }

  /** Bits 5..0: the low six bits of b2. */
  lemma Slice0(b0: byte, b1: byte, b2: byte)
    ensures (b0 * 0x1_0000 + b1 * 0x100 + b2) % 64 == b2 % 64
  {
    var c, d := b2 / 64, b2 % 64;
    DivBy64(b0 * 0x1_0000 + b1 * 0x100 + b2, 0x400 * b0 + 4 * b1 + c, d);
  }

  /** The source's `u >> k & 0x3F` slices of a whole group are those of Quad. */
  lemma GroupSlices(b0: byte, b1: byte, b2: byte)
    ensures var u := b0 * 0x1_0000 + b1 * 0x100 + b2;
            && u / 0x4_0000 % 64 == b0 / 4
            && u / 0x1000 % 64 == b0 % 4 * 16 + b1 / 16
            && u / 0x40 % 64 == b1 % 16 * 4 + b2 / 64
            && u % 64 == b2 % 64
  {
    Slice18(b0, b1, b2);
    Slice12(b0, b1, b2);
    Slice6(b0, b1, b2);
    Slice0(b0, b1, b2);
  }

  /** One leftover byte: what the source's shifts produce is its encoding. */
  lemma TailOneText(b0: byte)
    ensures B64([b0]) == [Char6(b0 / 4 % 64), Char6(b0 * 16 % 64), Pad, Pad]
  {
    var q, m := b0 / 4, b0 % 4;
    DivBy64(q, 0, q);
    DivBy64(16 * b0, q, 16 * m);
  }

  /** The slices of two leftover bytes u = b0 << 8 | b1: bits 15..10,
      9..4 and, shifted up by two, 3..0. */
  lemma TailTwoSlices(b0: byte, b1: byte)
    ensures var u := b0 * 0x100 + b1;
            && u / 0x400 % 64 == b0 / 4
            && u / 0x10 % 64 == b0 % 4 * 16 + b1 / 16
            && u * 4 % 64 == b1 % 16 * 4
  {
    var u := b0 * 0x100 + b1;
    var q, m := b0 / 4, b0 % 4;
    var e, f := b1 / 16, b1 % 16;
    DivBy1K(u, q, 0x100 * m + b1);
    DivBy64(q, 0, q);
    DivBy16(u, 16 * b0 + e, f);
    DivBy64(16 * b0 + e, q, 16 * m + e);
    DivBy64(u * 4, 16 * b0 + e, 4 * f);
  }

  /** The encoding of two bytes is the first three characters of their
      group, then `=`. */
  lemma B64Two(b0: byte, b1: byte)
    ensures B64([b0, b1]) == [Char6(b0 / 4), Char6(b0 % 4 * 16 + b1 / 16), Char6(b1 % 16 * 4), Pad]
  {
    assert B64([b0, b1]) == Quad(b0, b1, 0)[..3] + [Pad];
  }

  /** Two leftover bytes: what the source's shifts produce is their encoding. */
  lemma TailTwoText(b0: byte, b1: byte)
    ensures var u := (b0 as int) * 0x100 + b1;
            B64([b0, b1]) == [Char6(u / 0x400 % 64), Char6(u / 0x10 % 64), Char6(u * 4 % 64), Pad]
  {
    TailTwoSlices(b0, b1);
    B64Two(b0, b1);
  }

  /** The body of the loop of to_b64: writes the four characters of the
      group src[rd..rd + 3] at dst[wr..wr + 4]. */
  method EncodeGroup(dst: array<char>, wr: nat, src: seq<byte>, rd: nat)
    requires rd + 3 <= |src| && wr + 4 <= dst.Length
    modifies dst
    ensures forall i :: wr <= i < wr + 4 ==> dst[i] == Quad(src[rd], src[rd + 1], src[rd + 2])[i - wr]
    ensures forall i :: 0 <= i < dst.Length && !(wr <= i < wr + 4) ==> dst[i] == old(dst[i])
  {
    var u: int := (src[rd] as int) * 0x1_0000 + (src[rd + 1] as int) * 0x100 + src[rd + 2];
    GroupSlices(src[rd], src[rd + 1], src[rd + 2]);
    dst[wr] := Char6(u / 0x4_0000 % 64);
    dst[wr + 1] := Char6(u / 0x1000 % 64);
    dst[wr + 2] := Char6(u / 0x40 % 64);
    dst[wr + 3] := Char6(u % 64);
  }

  /** The switch at the end of to_b64: writes the padded last group for the
      one or two leftover bytes src[rd..rd + left], nothing for any other
      left, and returns the next write position. */
  method EncodeTail(dst: array<char>, wr: nat, src: seq<byte>, rd: nat, left: int) returns (wr': nat)
    requires rd + (if 0 <= left < 3 then left else 0) <= |src|
    requires wr + (if 0 < left < 3 then 4 else 0) <= dst.Length
    modifies dst
    ensures var k := if 0 <= left < 3 then left else 0;
            && wr' == wr + EncodedLen(k)
            && forall i :: wr <= i < wr' ==> dst[i] == B64(src[rd..rd + k])[i - wr]
    ensures forall i :: 0 <= i < dst.Length && !(wr <= i < wr') ==> dst[i] == old(dst[i])
  {
    wr' := wr;
    if left == 1 {
      TailOne(dst, wr, src[rd]);
      assert src[rd..rd + 1] == [src[rd]];
      wr' := wr + 4;
    } else if left == 2 {
      TailTwo(dst, wr, src[rd], src[rd + 1]);
      assert src[rd..rd + 2] == [src[rd], src[rd + 1]];
      wr' := wr + 4;
    }
  }

  /** Case 1 of the switch: one leftover byte. */
  method TailOne(dst: array<char>, wr: nat, b0: byte)
    requires wr + 4 <= dst.Length
    modifies dst
    ensures forall i :: wr <= i < wr + 4 ==> dst[i] == B64([b0])[i - wr]
    ensures forall i :: 0 <= i < dst.Length && !(wr <= i < wr + 4) ==> dst[i] == old(dst[i])
  {
    var u: int := b0;
    TailOneText(b0);
    dst[wr] := Char6(u / 4 % 64);
    dst[wr + 1] := Char6(u * 16 % 64);
    dst[wr + 2] := Pad;
    dst[wr + 3] := Pad;
  }

  /** Case 2 of the switch: two leftover bytes. */
  method TailTwo(dst: array<char>, wr: nat, b0: byte, b1: byte)
    requires wr + 4 <= dst.Length
    modifies dst
    ensures forall i :: wr <= i < wr + 4 ==> dst[i] == B64([b0, b1])[i - wr]
    ensures forall i :: 0 <= i < dst.Length && !(wr <= i < wr + 4) ==> dst[i] == old(dst[i])
  {
    var u: int := (b0 as int) * 0x100 + b1;
    TailTwoText(b0, b1);
    dst[wr] := Char6(u / 0x400 % 64);
    dst[wr + 1] := Char6(u / 0x10 % 64);
    dst[wr + 2] := Char6(u * 4 % 64);
    dst[wr + 3] := Pad;
  }

  /** The loop of to_b64: encodes whole groups while at least three bytes
      are left, and returns where it stopped reading and writing. */
  method EncodeGroups(dst: array<char>, src: seq<byte>, len: int) returns (rd: nat, wr: nat, left: int)
    requires len <= |src|
    requires EncodedLen(if len < 0 then 0 else len) < dst.Length
    modifies dst
    ensures rd % 3 == 0 && wr == 4 * (rd / 3) && rd + left == len && left < 3
    ensures rd <= (if len < 0 then 0 else len)
    ensures wr + EncodedLen(if left < 0 then 0 else left) == EncodedLen(if len < 0 then 0 else len)
    ensures forall i :: 0 <= i < wr ==> dst[i] == B64(src[..if len < 0 then 0 else len])[i]
    ensures forall i :: wr <= i < dst.Length ==> dst[i] == old(dst[i])
  {
    ghost var n: nat := if len < 0 then 0 else len;
    ghost var g: nat := 0;
    rd, wr, left := 0, 0, len;
    while left >= 3
      invariant rd == 3 * g && wr == 4 * g && rd <= n
      invariant rd + left == len
      invariant forall i :: 0 <= i < wr ==> dst[i] == B64(src[..n])[i]
      invariant forall i :: wr <= i < dst.Length ==> dst[i] == old(dst[i])
    {
      GroupAt(src, n, g);
      EncodeGroup(dst, wr, src, rd);
      rd, wr, left := rd + 3, wr + 4, left - 3;
      g := g + 1;
    }
    DivBy3(rd, g, 0);
    if left >= 0 {
      EncodedLenAfter(g, left);
    }
  }

  /** to_b64(dst, src, len): encodes the first len bytes of src into dst and
      ends the text with a NUL; dst keeps what it held after that. A
      negative len writes only the NUL. */
  method ToB64(dst: array<char>, src: seq<byte>, len: int)
    requires len <= |src|
    requires EncodedLen(if len < 0 then 0 else len) < dst.Length
    modifies dst
    ensures var n := if len < 0 then 0 else len;
            dst[..] == B64(src[..n]) + [Nul] + old(dst[..])[EncodedLen(n) + 1..]
  {
    ghost var n: nat := if len < 0 then 0 else len;
    var rd, wr, left := EncodeGroups(dst, src, len);
    ghost var head, mid, k := wr, dst[..], n - rd;
    wr := EncodeTail(dst, wr, src, rd, left);
    ghost var tail := dst[..];
    dst[wr] := Nul;
    assert dst[..] == tail[wr := Nul];
    Assembled(src, n, rd, head, wr, k, old(dst[..]), mid, tail);
  }
}
