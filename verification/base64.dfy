/**
  Base64 with the standard alphabet and `=` padding (section 4 of RFC 4648),
  over byte sequences.

  `Encode` is total. `Decode` is the strict decoder: it accepts exactly the
  canonical encodings (length a multiple of four, alphabet characters only,
  padding only at the end, pad bits zero) and rejects everything else.
  Python's non-validating `base64.b64decode` rejects a non-ASCII character,
  drops every ASCII character that is neither in the alphabet nor `=`, reads
  `=` as padding and stops at the first complete padding, and is lenient
  about pad bits, so it accepts strictly more strings. Both decoders agree on
  every string that `Encode` produces, so the round trip below holds for
  either.
*/
module Base64 {
  import opened Wrappers

  type byte = x: int | 0 <= x < 256
  type sextet = x: int | 0 <= x < 64

  const Pad: char := '='

  predicate IsAlphabetChar(c: char) {
    ('A' <= c <= 'Z') || ('a' <= c <= 'z') || ('0' <= c <= '9') || c == '+' || c == '/'
  }

  /** The character that encodes sextet `i`, as in Table 1 of RFC 4648:
      `A`-`Z` are 0-25, `a`-`z` are 26-51, `0`-`9` are 52-61, then `+` and `/`. */
  function CharOf(i: sextet): (c: char)
    ensures IsAlphabetChar(c)
  {
    if i < 26 then ('A' as int + i) as char
    else if i < 52 then ('a' as int + (i - 26)) as char
    else if i < 62 then ('0' as int + (i - 52)) as char
    else if i == 62 then '+'
    else '/'
  }

  /** The sextet an alphabet character encodes. */
  function IndexOf(c: char): (i: sextet)
    requires IsAlphabetChar(c)
    ensures CharOf(i) == c
  {
    if 'A' <= c <= 'Z' then c as int - 'A' as int
    else if 'a' <= c <= 'z' then c as int - 'a' as int + 26
    else if '0' <= c <= '9' then c as int - '0' as int + 52
    else if c == '+' then 62
    else 63
  }

  lemma IndexOfCharOf(i: sextet)
    ensures IndexOf(CharOf(i)) == i
  {
  }

  /** Number of `=` characters that end the encoding of `n` bytes. */
  function PadCount(n: nat): nat {
    (3 - n % 3) % 3
  }

  /** Four characters for three whole bytes. */
  function EncodeTriple(a: byte, b: byte, c: byte): seq<char> {
    [CharOf(a / 4), CharOf(a % 4 * 16 + b / 16), CharOf(b % 16 * 4 + c / 64), CharOf(c % 64)]
  }

  /** Base64 encoding of `bs`: groups of three bytes become four characters;
      a final group of one or two bytes is padded with `==` or `=`. */
  function Encode(bs: seq<byte>): (s: seq<char>)
    ensures |s| == 4 * ((|bs| + 2) / 3)
    ensures forall i :: 0 <= i < |s| - PadCount(|bs|) ==> IsAlphabetChar(s[i])
    ensures forall i :: |s| - PadCount(|bs|) <= i < |s| ==> s[i] == Pad
    decreases |bs|
  {
    if |bs| == 0 then []
    else if |bs| == 1 then [CharOf(bs[0] / 4), CharOf(bs[0] % 4 * 16), Pad, Pad]
    else if |bs| == 2 then [CharOf(bs[0] / 4), CharOf(bs[0] % 4 * 16 + bs[1] / 16), CharOf(bs[1] % 16 * 4), Pad]
    else
      var rest := Encode(bs[3..]);
      PadCountStep(|bs|);
      EncodeTriple(bs[0], bs[1], bs[2]) + rest
  }

  lemma PadCountStep(n: nat)
    requires n >= 3
    ensures PadCount(n) == PadCount(n - 3)
    ensures 4 * ((n + 2) / 3) == 4 + 4 * ((n - 3 + 2) / 3)
  {
  }

  /** Splitting `hi * m + lo` back into its digits. */
  lemma DivModDigits(hi: int, lo: int, m: int)
    requires m == 4 || m == 16 || m == 64
    requires 0 <= lo < m && 0 <= hi
    ensures (hi * m + lo) / m == hi
    ensures (hi * m + lo) % m == lo
  {
    if m == 4 {
      assert hi * m + lo == hi * 4 + lo;
    } else if m == 16 {
      assert hi * m + lo == hi * 16 + lo;
    } else {
      assert hi * m + lo == hi * 64 + lo;
    }
  }

  /** Decodes one group of four characters. Only the `last` group may carry
      padding, and then the bits the padding discards must be zero. */
  function DecodeQuad(q: seq<char>, last: bool): (r: Option<seq<byte>>)
    requires |q| == 4
    ensures r.Some? ==> 1 <= |r.value| <= 3
    ensures r.Some? && |r.value| < 3 ==> last
  {
    if IsAlphabetChar(q[0]) && IsAlphabetChar(q[1]) && IsAlphabetChar(q[2]) && IsAlphabetChar(q[3]) then
      var w, x, y, z := IndexOf(q[0]), IndexOf(q[1]), IndexOf(q[2]), IndexOf(q[3]);
      Some([w * 4 + x / 16, x % 16 * 16 + y / 4, y % 4 * 64 + z])
    else if last && IsAlphabetChar(q[0]) && IsAlphabetChar(q[1]) && IsAlphabetChar(q[2]) && q[3] == Pad
            && IndexOf(q[2]) % 4 == 0 then
      var w, x, y := IndexOf(q[0]), IndexOf(q[1]), IndexOf(q[2]);
      Some([w * 4 + x / 16, x % 16 * 16 + y / 4])
    else if last && IsAlphabetChar(q[0]) && IsAlphabetChar(q[1]) && q[2] == Pad && q[3] == Pad
            && IndexOf(q[1]) % 16 == 0 then
      var w, x := IndexOf(q[0]), IndexOf(q[1]);
      Some([w * 4 + x / 16])
    else
      None
  }

  /** Strict Base64 decoding; `None` for every string that is not the
      canonical encoding of some byte sequence. */
  function Decode(s: seq<char>): (r: Option<seq<byte>>)
    ensures |s| % 4 != 0 ==> r == None
    decreases |s|
  {
    if |s| == 0 then Some([])
    else if |s| < 4 then None
    else
      match DecodeQuad(s[..4], |s| == 4)
      case None => None
      case Some(head) =>
        match Decode(s[4..])
        case None => None
        case Some(tail) => Some(head + tail)
  }

  lemma DecodeTriple(a: byte, b: byte, c: byte)
    ensures DecodeQuad(EncodeTriple(a, b, c), false) == Some([a, b, c])
    ensures DecodeQuad(EncodeTriple(a, b, c), true) == Some([a, b, c])
  {
    var x, y := a % 4 * 16 + b / 16, b % 16 * 4 + c / 64;
    DivModDigits(a % 4, b / 16, 16);
    DivModDigits(b % 16, c / 64, 4);
    IndexOfCharOf(a / 4);
    IndexOfCharOf(a % 4 * 16 + b / 16);
    IndexOfCharOf(b % 16 * 4 + c / 64);
    IndexOfCharOf(c % 64);
  }

  lemma DecodeSingle(a: byte)
    ensures DecodeQuad(Encode([a]), true) == Some([a])
  {
    var s := Encode([a]);
    IndexOfCharOf(a / 4);
    IndexOfCharOf(a % 4 * 16);
    DivModDigits(a % 4, 0, 16);
    var w: int, x: int := IndexOf(s[0]), IndexOf(s[1]);
    assert w * 4 + x / 16 == a;
  }

  lemma DecodePair(a: byte, b: byte)
    ensures DecodeQuad(Encode([a, b]), true) == Some([a, b])
  {
    var s := Encode([a, b]);
    IndexOfCharOf(a / 4);
    IndexOfCharOf(a % 4 * 16 + b / 16);
    IndexOfCharOf(b % 16 * 4);
    DivModDigits(a % 4, b / 16, 16);
    DivModDigits(b % 16, 0, 4);
    var w: int, x: int, y: int := IndexOf(s[0]), IndexOf(s[1]), IndexOf(s[2]);
    assert w * 4 + x / 16 == a;
    assert x % 16 * 16 + y / 4 == b;
  }

  /** A single final group decodes on its own. */
  lemma DecodeOneGroup(q: seq<char>)
    requires |q| == 4
    ensures Decode(q) == DecodeQuad(q, true)
  {
    assert q[..4] == q && q[4..] == [];
    match DecodeQuad(q, true)
    case None =>
    case Some(head) => assert head + [] == head;
  }

  /** A full group followed by more groups decodes group by group. */
  lemma DecodeGroups(q: seq<char>, rest: seq<char>)
    requires |q| == 4 && |rest| > 0
    ensures Decode(q + rest) ==
      match DecodeQuad(q, false)
      case None => None
      case Some(head) =>
        match Decode(rest)
        case None => None
        case Some(tail) => Some(head + tail)
  {
    var s := q + rest;
    assert s[..4] == q && s[4..] == rest;
  }

  lemma SplitThree(bs: seq<byte>)
    requires |bs| >= 3
    ensures [bs[0], bs[1], bs[2]] + bs[3..] == bs
  {
  }

  /** Round trip: decoding an encoding gives the bytes back, for every byte
      sequence including the empty one. */
  lemma {:induction false} DecodeEncode(bs: seq<byte>)
    ensures Decode(Encode(bs)) == Some(bs)
    decreases |bs|
  {
    if |bs| == 0 {
    } else if |bs| == 1 {
      assert [bs[0]] == bs;
      DecodeSingle(bs[0]);
      DecodeOneGroup(Encode(bs));
    } else if |bs| == 2 {
      assert [bs[0], bs[1]] == bs;
      DecodePair(bs[0], bs[1]);
      DecodeOneGroup(Encode(bs));
    } else {
      var head := EncodeTriple(bs[0], bs[1], bs[2]);
      var rest := Encode(bs[3..]);
      assert Encode(bs) == head + rest;
      DecodeTriple(bs[0], bs[1], bs[2]);
      DecodeEncode(bs[3..]);
      SplitThree(bs);
      if |rest| == 0 {
        assert bs[3..] == [];
        assert head + rest == head;
        DecodeOneGroup(head);
      } else {
        DecodeGroups(head, rest);
      }
    }
  }

  lemma EncodeDecodeQuad(q: seq<char>, last: bool)
    requires |q| == 4
    requires DecodeQuad(q, last).Some?
    ensures |DecodeQuad(q, last).value| == 3 ==> EncodeTriple(DecodeQuad(q, last).value[0], DecodeQuad(q, last).value[1], DecodeQuad(q, last).value[2]) == q
    ensures |DecodeQuad(q, last).value| < 3 ==> Encode(DecodeQuad(q, last).value) == q
  {
    if IsAlphabetChar(q[0]) && IsAlphabetChar(q[1]) && IsAlphabetChar(q[2]) && IsAlphabetChar(q[3]) {
      EncodeFullQuad(q);
    } else if last && IsAlphabetChar(q[0]) && IsAlphabetChar(q[1]) && IsAlphabetChar(q[2]) && q[3] == Pad
            && IndexOf(q[2]) % 4 == 0 {
      EncodeOnePadQuad(q);
    } else {
      EncodeTwoPadQuad(q);
    }
  }

  /** The bytes of four sextets split back into those sextets. */
  lemma FullQuadDigits(w: sextet, x: sextet, y: sextet, z: sextet, a: int, b: int, c: int)
    requires a == w * 4 + x / 16 && b == x % 16 * 16 + y / 4 && c == y % 4 * 64 + z
    ensures a / 4 == w && a % 4 * 16 + b / 16 == x
    ensures b % 16 * 4 + c / 64 == y && c % 64 == z
  {
    DivModDigits(w, x / 16, 4);
    DivModDigits(x % 16, y / 4, 16);
    DivModDigits(y % 4, z, 64);
  }

  lemma EncodeFullQuad(q: seq<char>)
    requires |q| == 4
    requires IsAlphabetChar(q[0]) && IsAlphabetChar(q[1]) && IsAlphabetChar(q[2]) && IsAlphabetChar(q[3])
    ensures var r := DecodeQuad(q, false).value;
      && DecodeQuad(q, true) == DecodeQuad(q, false)
      && |r| == 3 && EncodeTriple(r[0], r[1], r[2]) == q
  {
    var r := DecodeQuad(q, false).value;
    var w: int, x: int, y: int, z: int := IndexOf(q[0]), IndexOf(q[1]), IndexOf(q[2]), IndexOf(q[3]);
    assert r == [w * 4 + x / 16, x % 16 * 16 + y / 4, y % 4 * 64 + z];
    FullQuadDigits(w, x, y, z, r[0], r[1], r[2]);
    EncodeTripleOfDigits(r[0], r[1], r[2], w, x, y, z);
  }

  lemma EncodeTripleOfDigits(a: byte, b: byte, c: byte, w: sextet, x: sextet, y: sextet, z: sextet)
    requires a / 4 == w && a % 4 * 16 + b / 16 == x && b % 16 * 4 + c / 64 == y && c % 64 == z
    ensures EncodeTriple(a, b, c) == [CharOf(w), CharOf(x), CharOf(y), CharOf(z)]
  {
  }

  lemma EncodeOnePadQuad(q: seq<char>)
    requires |q| == 4
    requires IsAlphabetChar(q[0]) && IsAlphabetChar(q[1]) && IsAlphabetChar(q[2]) && q[3] == Pad
    requires IndexOf(q[2]) % 4 == 0
    ensures var r := DecodeQuad(q, true).value;
      |r| == 2 && Encode(r) == q
  {
    var r := DecodeQuad(q, true).value;
    var w: int, x: int, y: int := IndexOf(q[0]), IndexOf(q[1]), IndexOf(q[2]);
    assert r == [w * 4 + x / 16, x % 16 * 16 + y / 4];
    FullQuadDigits(w, x, y, 0, r[0], r[1], 0);
    EncodePairOfDigits(r[0], r[1], w, x, y);
    assert [r[0], r[1]] == r;
  }

  lemma EncodePairOfDigits(a: byte, b: byte, w: sextet, x: sextet, y: sextet)
    requires a / 4 == w && a % 4 * 16 + b / 16 == x && b % 16 * 4 == y
    ensures Encode([a, b]) == [CharOf(w), CharOf(x), CharOf(y), Pad]
  {
  }

  lemma EncodeTwoPadQuad(q: seq<char>)
    requires |q| == 4
    requires IsAlphabetChar(q[0]) && IsAlphabetChar(q[1]) && q[2] == Pad && q[3] == Pad
    requires IndexOf(q[1]) % 16 == 0
    ensures var r := DecodeQuad(q, true).value;
      |r| == 1 && Encode(r) == q
  {
    var r := DecodeQuad(q, true).value;
    var w: int, x: int := IndexOf(q[0]), IndexOf(q[1]);
    assert r == [w * 4 + x / 16];
    FullQuadDigits(w, x, 0, 0, r[0], 0, 0);
    EncodeSingleOfDigits(r[0], w, x);
    assert [r[0]] == r;
  }

  lemma EncodeSingleOfDigits(a: byte, w: sextet, x: sextet)
    requires a / 4 == w && a % 4 * 16 == x
    ensures Encode([a]) == [CharOf(w), CharOf(x), Pad, Pad]
  {
  }

  /** Canonicity: whatever the strict decoder accepts is exactly the encoding
      of what it returns, so it rejects every non-canonical spelling. */
  lemma {:induction false} EncodeDecode(s: seq<char>)
    requires Decode(s).Some?
    ensures Encode(Decode(s).value) == s
    decreases |s|
  {
    if |s| == 0 {
    } else {
      var q := s[..4];
      var head := DecodeQuad(q, |s| == 4).value;
      EncodeDecodeQuad(q, |s| == 4);
      if |s| == 4 {
        assert s[4..] == [];
        assert Decode(s).value == head;
        assert s == q;
        if |head| == 3 {
          assert Encode(head) == EncodeTriple(head[0], head[1], head[2]) + Encode(head[3..]);
        }
      } else {
        var tail := Decode(s[4..]).value;
        EncodeDecode(s[4..]);
        var bs := head + tail;
        assert Decode(s).value == bs;
        assert |head| == 3;
        assert bs[3..] == tail;
        assert Encode(bs) == EncodeTriple(bs[0], bs[1], bs[2]) + Encode(tail);
        assert s == q + s[4..];
      }
    }
  }

  /** The strict decoder accepts a string if and only if it is an encoding. */
  lemma DecodeAcceptsExactlyEncodings(s: seq<char>)
    ensures Decode(s).Some? <==> exists bs: seq<byte> :: Encode(bs) == s
  {
    if Decode(s).Some? {
      EncodeDecode(s);
    }
    if exists bs: seq<byte> :: Encode(bs) == s {
      var bs: seq<byte> :| Encode(bs) == s;
      DecodeEncode(bs);
    }
  }

  /** Encoding is injective. */
  lemma EncodeInjective(a: seq<byte>, b: seq<byte>)
    ensures Encode(a) == Encode(b) ==> a == b
  {
    DecodeEncode(a);
    DecodeEncode(b);
  }

  /** Only the empty byte sequence encodes to the empty string. */
  lemma EncodeEmpty(bs: seq<byte>)
    ensures Encode(bs) == [] <==> bs == []
  {
  }
}
