/** Base 64 encoding with the URL- and filename-safe alphabet, section 5 of RFC 4648, in
    which the 62nd and 63rd letters are '-' and '_' instead of '+' and '/'. The encoded
    form is padded with '=' to a multiple of four characters. */
module Base64Url {
  import opened Wrappers
  import opened Bytes

  type Sextet = v: int | 0 <= v < 64

  const Pad: char := '='

  /** The value of a letter of the alphabet: 'A'-'Z' are 0-25, 'a'-'z' 26-51, '0'-'9'
      52-61, '-' is 62 and '_' is 63; any other character is not a letter. */
  function SextetOf(c: char): Option<Sextet> {
    if 'A' <= c <= 'Z' then Some(c as int - 'A' as int)
    else if 'a' <= c <= 'z' then Some(c as int - 'a' as int + 26)
    else if '0' <= c <= '9' then Some(c as int - '0' as int + 52)
    else if c == '-' then Some(62)
    else if c == '_' then Some(63)
    else None
  }

  /** The letter of the alphabet that stands for value v. */
  function LetterOf(v: Sextet): (c: char)
    ensures SextetOf(c) == Some(v)
  {
    if v < 26 then (v + 'A' as int) as char
    else if v < 52 then (v - 26 + 'a' as int) as char
    else if v < 62 then (v - 52 + '0' as int) as char
    else if v == 62 then '-'
    else '_'
  }

  /** Every letter is the image of its own value, so the alphabet has exactly 64 letters. */
  lemma LetterOfSextetOf(c: char)
    requires SextetOf(c).Some?
    ensures LetterOf(SextetOf(c).value) == c
  {
  }

  predicate IsLetter(c: char) {
    SextetOf(c).Some?
  }

  /** The three bytes that four sextets a, b, c, d carry, most significant bits first. */
  function Byte0(a: Sextet, b: Sextet): Byte { a * 4 + b / 16 }
  function Byte1(b: Sextet, c: Sextet): Byte { (b % 16) * 16 + c / 4 }
  function Byte2(c: Sextet, d: Sextet): Byte { (c % 4) * 64 + d }

  /** Four letters carrying three bytes. */
  function DecodeQuad(s: string): (r: Option<seq<Byte>>)
    requires |s| == 4
    ensures r.Some? <==> IsLetter(s[0]) && IsLetter(s[1]) && IsLetter(s[2]) && IsLetter(s[3])
    ensures r.Some? ==> |r.value| == 3
  {
    match (SextetOf(s[0]), SextetOf(s[1]), SextetOf(s[2]), SextetOf(s[3]))
    case (Some(a), Some(b), Some(c), Some(d)) =>
      Some([Byte0(a, b), Byte1(b, c), Byte2(c, d)])
    case _ => None
  }

  /** The last group of four: "xx==" carries one byte, "xxx=" two and "xxxx" three. The
      bits of the last letter that fall beyond the final byte are discarded. */
  function DecodeFinal(s: string): (r: Option<seq<Byte>>)
    requires |s| == 4
    ensures r.Some? ==> 1 <= |r.value| <= 3
  {
    if s[2] == Pad && s[3] == Pad then
      match (SextetOf(s[0]), SextetOf(s[1]))
      case (Some(a), Some(b)) => Some([Byte0(a, b)])
      case _ => None
    else if s[3] == Pad then
      match (SextetOf(s[0]), SextetOf(s[1]), SextetOf(s[2]))
      case (Some(a), Some(b), Some(c)) => Some([Byte0(a, b), Byte1(b, c)])
      case _ => None
    else DecodeQuad(s)
  }

  /** Decodes base64url text; None when the text is not a whole number of groups of four,
      holds a character outside the alphabet, or has padding anywhere but at its end. */
  function Decode(s: string): (r: Option<seq<Byte>>)
    ensures r.Some? ==> |s| % 4 == 0
    ensures r.Some? ==> 4 * |r.value| <= 3 * |s|
    ensures r.Some? && |s| > 0 ==> 3 * |s| <= 4 * |r.value| + 8
    decreases |s|
  {
    if s == [] then Some([])
    else if |s| < 4 then None
    else if |s| == 4 then DecodeFinal(s)
    else
      match DecodeQuad(s[..4])
      case None => None
      case Some(q) =>
        match Decode(s[4..])
        case None => None
        case Some(rest) => AddGroup(|s[4..]|); Some(q + rest)
  }

  /** One more group of four keeps a length a multiple of four. */
  lemma AddGroup(n: nat)
    ensures (n + 4) % 4 == n % 4
  {
  }

  function EncodeTriple(a: Byte, b: Byte, c: Byte): (r: string)
    ensures |r| == 4 && forall i | 0 <= i < 4 :: IsLetter(r[i])
  {
    [LetterOf(a / 4), LetterOf((a % 4) * 16 + b / 16), LetterOf((b % 16) * 4 + c / 64), LetterOf(c % 64)]
  }

  /** Encodes bytes as padded base64url text. */
  function Encode(b: seq<Byte>): (r: string)
    ensures |r| == 4 * ((|b| + 2) / 3)
    ensures forall i | 0 <= i < |r| :: IsLetter(r[i]) || r[i] == Pad
    decreases |b|
  {
    if |b| == 0 then ""
    else if |b| == 1 then [LetterOf(b[0] / 4), LetterOf((b[0] % 4) * 16), Pad, Pad]
    else if |b| == 2 then
      [LetterOf(b[0] / 4), LetterOf((b[0] % 4) * 16 + b[1] / 16), LetterOf((b[1] % 16) * 4), Pad]
    else EncodeTriple(b[0], b[1], b[2]) + Encode(b[3..])
  }

  /** Euclidean division by a constant recovers the quotient and the remainder. */
  lemma SplitBy(q: int, r: int, d: int)
    requires d == 4 || d == 16 || d == 64
    requires 0 <= r < d
    ensures (q * d + r) / d == q && (q * d + r) % d == r
  {
  }

  /** Each sextet of a triple is recombined into the byte it was cut from. */
  lemma TripleSextets(a: Byte, b: Byte, c: Byte)
    ensures Byte0(a / 4, (a % 4) * 16 + b / 16) == a
    ensures Byte1((a % 4) * 16 + b / 16, (b % 16) * 4 + c / 64) == b
    ensures Byte2((b % 16) * 4 + c / 64, c % 64) == c
  {
    SplitBy(a % 4, b / 16, 16);
    SplitBy(b % 16, c / 64, 4);
  }

  /** The sextets a final group of one or two bytes is cut into recombine into those
      bytes. */
  lemma SingleSextets(a: Byte)
    ensures Byte0(a / 4, (a % 4) * 16) == a
  {
    SplitBy(a % 4, 0, 16);
  }

  lemma PairSextets(a: Byte, b: Byte)
    ensures Byte0(a / 4, (a % 4) * 16 + b / 16) == a
    ensures Byte1((a % 4) * 16 + b / 16, (b % 16) * 4) == b
  {
    SplitBy(a % 4, b / 16, 16);
    SplitBy(b % 16, 0, 4);
  }

  lemma DecodeEncodeTriple(a: Byte, b: Byte, c: Byte)
    ensures DecodeQuad(EncodeTriple(a, b, c)) == Some([a, b, c])
  {
    TripleSextets(a, b, c);
  }

  /** A final group "xx==" carries the byte its two letters make. */
  lemma DecodeFinalTwoLetters(a: Sextet, b: Sextet)
    ensures DecodeFinal([LetterOf(a), LetterOf(b), Pad, Pad]) == Some([Byte0(a, b)])
  {
  }

  /** A final group "xxx=" carries the two bytes its three letters make. */
  lemma DecodeFinalThreeLetters(a: Sextet, b: Sextet, c: Sextet)
    ensures DecodeFinal([LetterOf(a), LetterOf(b), LetterOf(c), Pad]) == Some([Byte0(a, b), Byte1(b, c)])
  {
    assert SextetOf(Pad).None?;
  }

  /** A text of one group decodes as a final group. */
  lemma DecodeOneGroup(s: string)
    requires |s| == 4
    ensures Decode(s) == DecodeFinal(s)
  {
  }

  lemma EncodeOneByte(b: seq<Byte>)
    requires |b| == 1
    ensures Encode(b) == [LetterOf(b[0] / 4), LetterOf((b[0] % 4) * 16), Pad, Pad]
  {
  }

  lemma EncodeTwoBytes(b: seq<Byte>)
    requires |b| == 2
    ensures Encode(b) == [LetterOf(b[0] / 4), LetterOf((b[0] % 4) * 16 + b[1] / 16), LetterOf((b[1] % 16) * 4), Pad]
  {
  }

  lemma DecodeEncodeOne(b: seq<Byte>)
    requires |b| == 1
    ensures Decode(Encode(b)) == Some(b)
  {
    var s := [LetterOf(b[0] / 4), LetterOf((b[0] % 4) * 16), Pad, Pad];
    EncodeOneByte(b);
    DecodeOneGroup(s);
    DecodeFinalTwoLetters(b[0] / 4, (b[0] % 4) * 16);
    SingleSextets(b[0]);
    Elements(b);
  }

  lemma DecodeEncodeTwo(b: seq<Byte>)
    requires |b| == 2
    ensures Decode(Encode(b)) == Some(b)
  {
    var s := [LetterOf(b[0] / 4), LetterOf((b[0] % 4) * 16 + b[1] / 16), LetterOf((b[1] % 16) * 4), Pad];
    EncodeTwoBytes(b);
    DecodeOneGroup(s);
    DecodeFinalThreeLetters(b[0] / 4, (b[0] % 4) * 16 + b[1] / 16, (b[1] % 16) * 4);
    PairSextets(b[0], b[1]);
    Elements(b);
  }

  /** A full group followed by more text decodes to the group's bytes followed by the
      rest's. */
  lemma DecodeConcat(q: string, rest: string)
    requires |q| == 4 && DecodeQuad(q).Some?
    requires |rest| > 0 && Decode(rest).Some?
    ensures Decode(q + rest) == Some(DecodeQuad(q).value + Decode(rest).value)
  {
    var s := q + rest;
    assert s[..4] == q;
    assert s[4..] == rest;
  }

  /** Three or more bytes encode as a full group followed by the encoding of the rest. */
  lemma EncodeFullGroup(b: seq<Byte>)
    requires |b| >= 3
    ensures Encode(b) == EncodeTriple(b[0], b[1], b[2]) + Encode(b[3..])
  {
  }

  lemma DecodeEncodeThree(b: seq<Byte>)
    requires |b| == 3
    ensures Decode(Encode(b)) == Some(b)
  {
    var q := EncodeTriple(b[0], b[1], b[2]);
    EncodeFullGroup(b);
    assert Encode(b[3..]) == [];
    assert Encode(b) == q;
    DecodeEncodeTriple(b[0], b[1], b[2]);
    DecodeOneGroup(q);
    assert DecodeFinal(q) == DecodeQuad(q);
    Elements(b);
  }

  /** A full group in front of a text that decodes back to the rest of the bytes. */
  lemma DecodeEncodeMore(b: seq<Byte>)
    requires |b| > 3 && Decode(Encode(b[3..])) == Some(b[3..])
    ensures Decode(Encode(b)) == Some(b)
  {
    var q := EncodeTriple(b[0], b[1], b[2]);
    var t := Encode(b[3..]);
    EncodeFullGroup(b);
    assert Encode(b) == q + t;
    DecodeEncodeTriple(b[0], b[1], b[2]);
    assert DecodeQuad(q) == Some([b[0], b[1], b[2]]);
    assert |t| > 0;
    DecodeConcat(q, t);
    FrontAndRest(b);
  }

  /** A short byte string is the display of its elements. */
  lemma Elements(b: seq<Byte>)
    ensures |b| == 1 ==> [b[0]] == b
    ensures |b| == 2 ==> [b[0], b[1]] == b
    ensures |b| == 3 ==> [b[0], b[1], b[2]] == b
  {
  }

  lemma FrontAndRest(b: seq<Byte>)
    requires |b| >= 3
    ensures [b[0], b[1], b[2]] + b[3..] == b
  {
  }

  /** Decoding undoes encoding, for every byte string. */
  lemma {:induction false} DecodeEncode(b: seq<Byte>)
    ensures Decode(Encode(b)) == Some(b)
    decreases |b|
  {
    if |b| == 0 {
    } else if |b| == 1 {
      DecodeEncodeOne(b);
    } else if |b| == 2 {
      DecodeEncodeTwo(b);
    } else if |b| == 3 {
      DecodeEncodeThree(b);
    } else {
      DecodeEncode(b[3..]);
      DecodeEncodeMore(b);
    }
  }
}
