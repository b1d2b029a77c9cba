/** encoding/hex, as the repository uses it. */
module Hex {
  import opened Basics

  function Digit(v: int): (c: Byte)
    requires 0 <= v < 16
  {
    if v < 10 then 0x30 + v else 0x61 + v - 10
  }

  /** hex.EncodeToString. */
  function Encode(b: Str): (s: Str)
    ensures |s| == 2 * |b|
  {
    if b == [] then [] else [Digit(b[0] / 16), Digit(b[0] % 16)] + Encode(b[1..])
  }

  /** Both cases are accepted. */
  function Value(c: Byte): Option<int> {
    if 0x30 <= c <= 0x39 then Some(c - 0x30)
    else if 0x61 <= c <= 0x66 then Some(c - 0x61 + 10)
    else if 0x41 <= c <= 0x46 then Some(c - 0x41 + 10)
    else None
  }

  /** hex.DecodeString: odd lengths and foreign characters are refused. */
  function Decode(s: Str): (r: Option<Str>)
    decreases |s|
  {
    if s == [] then Some([])
    else if |s| == 1 then None
    else
      match (Value(s[0]), Value(s[1]), Decode(s[2..]))
      case (Some(high), Some(low), Some(rest)) =>
        assert 0 <= high < 16 && 0 <= low < 16;
        Some([16 * high + low] + rest)
      case _ => None
  }

  function FoldByte(c: Byte): Byte {
    if 0x41 <= c <= 0x46 then c + 0x20 else c
  }

  /** The hex digits A-F in lower case. */
  function Fold(s: Str): (t: Str)
    ensures |t| == |s|
  {
    seq(|s|, i requires 0 <= i < |s| => FoldByte(s[i]))
  }

  lemma {:induction false} EncodeIsAllowed(b: Str)
    ensures forall c :: c in Encode(b) ==> AllowedByte(c) && c != DOT && FoldByte(c) == c
  {
    if b != [] {
      EncodeIsAllowed(b[1..]);
    }
  }

  lemma ValueFold(c: Byte, v: int)
    requires 0 <= v < 16
    ensures Value(c) == Some(v) <==> FoldByte(c) == Digit(v)
  {
  }

  /** The decoder accepts exactly the encodings, up to the case of A-F. */
  lemma {:induction false} DecodeIff(s: Str, b: Str)
    ensures Decode(s) == Some(b) <==> Fold(s) == Encode(b)
    decreases |s|
  {
    if b == [] || s == [] {
    } else if |s| == 1 {
      assert |Fold(s)| == 1;
    } else {
      DecodeIff(s[2..], b[1..]);
      ValueFold(s[0], b[0] / 16);
      ValueFold(s[1], b[0] % 16);
      assert Fold(s) == [FoldByte(s[0]), FoldByte(s[1])] + Fold(s[2..]);
      if Fold(s) == Encode(b) {
        assert Fold(s)[0] == Encode(b)[0] && Fold(s)[1] == Encode(b)[1];
        assert Fold(s)[2..] == Fold(s[2..]) && Encode(b)[2..] == Encode(b[1..]);
        assert [b[0]] + b[1..] == b;
      }
      if Decode(s) == Some(b) {
        assert b[1..] == Decode(s[2..]).value;
      }
    }
  }

  lemma EncodeInjective(a: Str, b: Str)
    requires Encode(a) == Encode(b)
    ensures a == b
  {
    EncodeIsAllowed(a);
    assert Fold(Encode(a)) == Encode(a);
    DecodeIff(Encode(a), a);
    DecodeIff(Encode(a), b);
  }

  lemma FoldEncode(b: Str)
    ensures Fold(Encode(b)) == Encode(b)
  {
    EncodeIsAllowed(b);
  }
}

/** base64.RawURLEncoding (sections 3.2 and 5 of RFC 4648): an unpadded printer and a permissive decoder. */
module Base64 {
  import opened Basics

  type Sextet = v: int | 0 <= v < 64

  function Char(v: Sextet): (c: Byte) {
    if v < 26 then 0x41 + v
    else if v < 52 then 0x61 + v - 26
    else if v < 62 then 0x30 + v - 52
    else if v == 62 then 0x2d
    else 0x5f
  }

  function Value(c: Byte): Option<Sextet> {
    if 0x41 <= c <= 0x5a then Some(c - 0x41)
    else if 0x61 <= c <= 0x7a then Some(c - 0x61 + 26)
    else if 0x30 <= c <= 0x39 then Some(c - 0x30 + 52)
    else if c == 0x2d then Some(62)
    else if c == 0x5f then Some(63)
    else None
  }

  /** Three bytes become four sextets; a tail of one or two bytes is not padded. */
  function ToSextets(b: Str): (s: seq<Sextet>)
    ensures |s| == (4 * |b| + 2) / 3
  {
    if b == [] then []
    else if |b| == 1 then [b[0] / 4, b[0] % 4 * 16]
    else if |b| == 2 then [b[0] / 4, b[0] % 4 * 16 + b[1] / 16, b[1] % 16 * 4]
    else [b[0] / 4, b[0] % 4 * 16 + b[1] / 16, b[1] % 16 * 4 + b[2] / 64, b[2] % 64] + ToSextets(b[3..])
  }

  /** The unused trailing bits of a short last quantum are ignored; a lone sextet is refused. */
  function FromSextets(s: seq<Sextet>): Option<Str> {
    if s == [] then Some([])
    else if |s| == 1 then None
    else
      var b0: Byte := s[0] as int * 4 + s[1] / 16;
      if |s| == 2 then Some([b0]) else
      var b1: Byte := s[1] as int % 16 * 16 + s[2] / 4;
      if |s| == 3 then Some([b0, b1]) else
      var b2: Byte := s[2] as int % 4 * 64 + s[3];
      var rest := FromSextets(s[4..]);
      if rest.None? then None else Some([b0, b1, b2] + rest.value)
  }

  function Chars(s: seq<Sextet>): (r: Str)
    ensures |r| == |s|
  {
    seq(|s|, i requires 0 <= i < |s| => Char(s[i]))
  }

  /** Line breaks are skipped wherever they stand; any other foreign byte is refused. */
  function Values(s: Str): Option<seq<Sextet>> {
    if s == [] then Some([])
    else if s[0] == 0x0a || s[0] == 0x0d then Values(s[1..])
    else
      match (Value(s[0]), Values(s[1..]))
      case (Some(v), Some(rest)) => Some([v] + rest)
      case _ => None
  }

  /** EncodeToString. */
  function Encode(b: Str): (s: Str)
    ensures |s| == (4 * |b| + 2) / 3
  {
    Chars(ToSextets(b))
  }

  /** DecodeString. */
  function Decode(s: Str): Option<Str> {
    var values := Values(s);
    if values.None? then None else FromSextets(values.value)
  }

  lemma ValueOfChar(v: Sextet)
    ensures Value(Char(v)) == Some(v) && Char(v) != 0x0a && Char(v) != 0x0d && Char(v) != SLASH
  {
  }

  lemma {:induction false} ValuesOfChars(s: seq<Sextet>)
    ensures Values(Chars(s)) == Some(s)
  {
    if s != [] {
      ValuesOfChars(s[1..]);
      ValueOfChar(s[0]);
      assert Chars(s)[1..] == Chars(s[1..]);
      assert [s[0]] + s[1..] == s;
    }
  }

  lemma {:induction false} SextetsRoundTrip(b: Str)
    ensures FromSextets(ToSextets(b)) == Some(b)
    decreases |b|
  {
    var s := ToSextets(b);
    if |b| == 1 {
      assert b == [b[0]];
    } else if |b| == 2 {
      assert b == [b[0], b[1]];
    } else if |b| > 2 {
      SextetsRoundTrip(b[3..]);
      assert s[4..] == ToSextets(b[3..]);
      assert b == [b[0], b[1], b[2]] + b[3..];
    }
  }

  lemma RoundTrip(b: Str)
    ensures Decode(Encode(b)) == Some(b)
  {
    ValuesOfChars(ToSextets(b));
    SextetsRoundTrip(b);
  }

  lemma EncodeIsUrlSafe(b: Str)
    ensures SLASH !in Encode(b)
  {
    forall v: Sextet ensures Char(v) != SLASH { ValueOfChar(v); }
  }

  lemma EncodeInjective(a: Str, b: Str)
    requires Encode(a) == Encode(b)
    ensures a == b
  {
    RoundTrip(a);
    RoundTrip(b);
  }

  /** Why the caller re-encodes: alone, the decoder gives one name many spellings ("YQ", "YR", "Y\nQ" are all "a"). */
  lemma DecoderIsPermissive()
    ensures Decode([0x59, 0x51]) == Decode([0x59, 0x52]) == Decode([0x59, 0x0a, 0x51]) == Some([0x61])
    ensures Encode([0x61]) == [0x59, 0x51]
  {
    ValuesOfChars([24, 16]);
    ValuesOfChars([24, 17]);
    ValuesOfChars([16]);
    assert Chars([16]) == [0x51];
    assert Chars([24, 16]) == [0x59, 0x51] && Chars([24, 17]) == [0x59, 0x52];
    assert [0x59, 0x0a, 0x51][1..] == [0x0a, 0x51] && [0x0a, 0x51][1..] == [0x51];
    assert Values([0x0a, 0x51]) == Some([16]);
  }

  /** Known answers (section 10 of RFC 4648, without padding; the last from the alphabet of section 5). */
  lemma KnownAnswers()
    ensures Encode([]) == []
    ensures Encode([0x66]) == [0x5a, 0x67]                          // "f"   "Zg"
    ensures Encode([0x66, 0x6f]) == [0x5a, 0x6d, 0x38]              // "fo"  "Zm8"
    ensures Encode([0x66, 0x6f, 0x6f]) == [0x5a, 0x6d, 0x39, 0x76]  // "foo" "Zm9v"
    ensures Encode([0xfb, 0xff]) == [0x2d, 0x5f, 0x38]              // "-_8"
  {
    assert ToSextets([0x66, 0x6f, 0x6f]) == [25, 38, 61, 47];
  }
}
