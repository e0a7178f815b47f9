/** The two text decodings applied to a decoded message body: strict UTF-8, with the
    well-formed byte sequences of Table 3-7 of the Unicode Standard (no overlong forms, no
    surrogates, nothing above U+10FFFF), and ISO-8859-1, which maps each byte to the
    character with the same code. */
module Utf8 {
  import opened Wrappers
  import opened Bytes

  predicate IsContinuation(b: Byte) {
    0x80 <= b <= 0xBF
  }

  /** Range of the second byte of a three-byte sequence led by b0 (0xE0 excludes overlong
      forms, 0xED excludes surrogates). */
  function SecondLow3(b0: Byte): Byte { if b0 == 0xE0 then 0xA0 else 0x80 }
  function SecondHigh3(b0: Byte): Byte { if b0 == 0xED then 0x9F else 0xBF }

  /** Range of the second byte of a four-byte sequence led by b0 (0xF0 excludes overlong
      forms, 0xF4 excludes code points above U+10FFFF). */
  function SecondLow4(b0: Byte): Byte { if b0 == 0xF0 then 0x90 else 0x80 }
  function SecondHigh4(b0: Byte): Byte { if b0 == 0xF4 then 0x8F else 0xBF }

  /** The first character of b and the number of bytes that encode it, or None when b does
      not start with a well-formed sequence. */
  function DecodeFirst(b: seq<Byte>): (r: Option<(char, nat)>)
    requires |b| > 0
    ensures r.Some? ==> 1 <= r.value.1 <= 4 && r.value.1 <= |b|
  {
    var b0: int := b[0];
    if b0 <= 0x7F then Some((b0 as char, 1))
    else if 0xC2 <= b0 <= 0xDF then
      if |b| >= 2 && IsContinuation(b[1]) then
        Some((((b0 - 0xC0) * 64 + (b[1] as int - 0x80)) as char, 2))
      else None
    else if 0xE0 <= b0 <= 0xEF then
      if |b| >= 3 && SecondLow3(b0) <= b[1] <= SecondHigh3(b0) && IsContinuation(b[2]) then
        Some((((b0 - 0xE0) * 4096 + (b[1] as int - 0x80) * 64 + (b[2] as int - 0x80)) as char, 3))
      else None
    else if 0xF0 <= b0 <= 0xF4 then
      if |b| >= 4 && SecondLow4(b0) <= b[1] <= SecondHigh4(b0) && IsContinuation(b[2])
         && IsContinuation(b[3]) then
        Some((((b0 - 0xF0) * 262144 + (b[1] as int - 0x80) * 4096 + (b[2] as int - 0x80) * 64 + (b[3] as int - 0x80)) as char, 4))
      else None
    else None
  }

  /** `bytes.decode("utf-8")`: None stands for `UnicodeDecodeError`. */
  function Decode(b: seq<Byte>): (r: Option<string>)
    ensures r.Some? ==> |r.value| <= |b|
    decreases |b|
  {
    if b == [] then Some("")
    else
      match DecodeFirst(b)
      case None => None
      case Some((c, n)) =>
        match Decode(b[n..])
        case None => None
        case Some(rest) => Some([c] + rest)
  }

  /** The UTF-8 encoding of one character, in one to four bytes. */
  function EncodeChar(c: char): (r: seq<Byte>)
    ensures 1 <= |r| <= 4
  {
    var n := c as int;
    if n < 0x80 then [n]
    else if n < 0x800 then [0xC0 + n / 64, 0x80 + n % 64]
    else if n < 0x10000 then [0xE0 + n / 4096, 0x80 + (n / 64) % 64, 0x80 + n % 64]
    else [0xF0 + n / 262144, 0x80 + (n / 4096) % 64, 0x80 + (n / 64) % 64, 0x80 + n % 64]
  }

  /** `str.encode("utf-8")`. */
  function Encode(s: string): (r: seq<Byte>)
    ensures |s| <= |r| <= 4 * |s|
  {
    if s == [] then [] else EncodeChar(s[0]) + Encode(s[1..])
  }

  lemma Digits(n: nat)
    ensures n == (n / 64) * 64 + n % 64
    ensures n / 4096 == (n / 64) / 64
    ensures n / 262144 == (n / 4096) / 64
  {
  }

  lemma DecodeFirstTwo(c: char, rest: seq<Byte>)
    requires 0x80 <= c as int < 0x800
    ensures DecodeFirst(EncodeChar(c) + rest) == Some((c, 2))
  {
    var n := c as int;
    Digits(n);
    var b := EncodeChar(c) + rest;
    assert b[0] == 0xC0 + n / 64 && b[1] == 0x80 + n % 64;
  }

  lemma DecodeFirstThree(c: char, rest: seq<Byte>)
    requires 0x800 <= c as int < 0x10000
    ensures DecodeFirst(EncodeChar(c) + rest) == Some((c, 3))
  {
    var n := c as int;
    Digits(n);
    Digits(n / 64);
    var b := EncodeChar(c) + rest;
    var x, y, z := n / 4096, (n / 64) % 64, n % 64;
    assert n == x * 4096 + y * 64 + z;
    assert b[0] == 0xE0 + x && b[1] == 0x80 + y && b[2] == 0x80 + z;
    assert x == 0 ==> y >= 32;
    assert x == 13 ==> y < 32;
  }

  lemma DecodeFirstFour(c: char, rest: seq<Byte>)
    requires 0x10000 <= c as int
    ensures DecodeFirst(EncodeChar(c) + rest) == Some((c, 4))
  {
    var n := c as int;
    Digits(n);
    Digits(n / 64);
    Digits(n / 4096);
    var b := EncodeChar(c) + rest;
    var w, x, y, z := n / 262144, (n / 4096) % 64, (n / 64) % 64, n % 64;
    assert n == w * 262144 + x * 4096 + y * 64 + z;
    assert b[0] == 0xF0 + w && b[1] == 0x80 + x && b[2] == 0x80 + y && b[3] == 0x80 + z;
    assert w == 0 ==> x >= 16;
    assert w == 4 ==> x < 16;
  }

  /** The decoder reads back exactly the bytes of the first character's encoding. */
  lemma DecodeFirstEncodeChar(c: char, rest: seq<Byte>)
    ensures DecodeFirst(EncodeChar(c) + rest) == Some((c, |EncodeChar(c)|))
  {
    var n := c as int;
    if n < 0x80 {
    } else if n < 0x800 {
      DecodeFirstTwo(c, rest);
    } else if n < 0x10000 {
      DecodeFirstThree(c, rest);
    } else {
      DecodeFirstFour(c, rest);
    }
  }

  /** UTF-8 decoding undoes UTF-8 encoding, for every string. */
  lemma {:induction false} DecodeEncode(s: string)
    ensures Decode(Encode(s)) == Some(s)
  {
    if s != [] {
      var e := EncodeChar(s[0]);
      var b := Encode(s);
      assert b == e + Encode(s[1..]);
      DecodeFirstEncodeChar(s[0], Encode(s[1..]));
      assert b[|e|..] == Encode(s[1..]);
      DecodeEncode(s[1..]);
      assert s == [s[0]] + s[1..];
    }
  }

  /** Euclidean division by 64 splits off the last six bits. */
  lemma SplitSix(q: int, r: int)
    requires 0 <= q && 0 <= r < 64
    ensures (q * 64 + r) / 64 == q && (q * 64 + r) % 64 == r
  {
  }

  /** A well-formed first sequence is exactly the encoding of the character read from it. */
  lemma DecodeFirstIsEncoding(b: seq<Byte>)
    requires |b| > 0 && DecodeFirst(b).Some?
    ensures EncodeChar(DecodeFirst(b).value.0) == b[..DecodeFirst(b).value.1]
  {
    var b0: int := b[0];
    if b0 <= 0x7F {
    } else if b0 <= 0xDF {
      ReadTwo(b);
    } else if b0 <= 0xEF {
      ReadThree(b);
    } else {
      ReadFour(b);
    }
  }

  lemma ReadTwo(b: seq<Byte>)
    requires |b| > 0 && DecodeFirst(b).Some? && 0x80 <= b[0] <= 0xDF
    ensures DecodeFirst(b).value.1 == 2 && EncodeChar(DecodeFirst(b).value.0) == b[..2]
  {
    var x, y := b[0] as int - 0xC0, b[1] as int - 0x80;
    SplitSix(x, y);
    assert b[..2] == [b[0], b[1]];
  }

  lemma ReadThree(b: seq<Byte>)
    requires |b| > 0 && DecodeFirst(b).Some? && 0xE0 <= b[0] <= 0xEF
    ensures DecodeFirst(b).value.1 == 3 && EncodeChar(DecodeFirst(b).value.0) == b[..3]
  {
    var x, y, z := b[0] as int - 0xE0, b[1] as int - 0x80, b[2] as int - 0x80;
    var n := x * 4096 + y * 64 + z;
    assert n == (x * 64 + y) * 64 + z;
    SplitSix(x * 64 + y, z);
    SplitSix(x, y);
    Digits(n);
    assert 0x800 <= n < 0x10000;
    assert b[..3] == [b[0], b[1], b[2]];
  }

  lemma ReadFour(b: seq<Byte>)
    requires |b| > 0 && DecodeFirst(b).Some? && 0xF0 <= b[0]
    ensures DecodeFirst(b).value.1 == 4 && EncodeChar(DecodeFirst(b).value.0) == b[..4]
  {
    var w, x, y, z := b[0] as int - 0xF0, b[1] as int - 0x80, b[2] as int - 0x80, b[3] as int - 0x80;
    var n := w * 262144 + x * 4096 + y * 64 + z;
    assert n == ((w * 64 + x) * 64 + y) * 64 + z;
    SplitSix((w * 64 + x) * 64 + y, z);
    SplitSix(w * 64 + x, y);
    SplitSix(w, x);
    Digits(n);
    assert 0x10000 <= n;
    assert b[..4] == [b[0], b[1], b[2], b[3]];
  }

  /** Whatever the decoder accepts is the encoding of what it returns: overlong forms,
      surrogates and stray continuation bytes are rejected. */
  lemma {:induction false} DecodeIsEncoding(b: seq<Byte>)
    requires Decode(b).Some?
    ensures Encode(Decode(b).value) == b
    decreases |b|
  {
    if b != [] {
      var c, n := DecodeCons(b);
      DecodeFirstIsEncoding(b);
      DecodeIsEncoding(b[n..]);
      EncodeCons(c, Decode(b[n..]).value);
      Rejoin(b, n);
    }
  }

  /** One step of the decoder: the first character, then the rest. */
  lemma DecodeCons(b: seq<Byte>) returns (c: char, n: nat)
    requires b != [] && Decode(b).Some?
    ensures DecodeFirst(b) == Some((c, n)) && n <= |b| && Decode(b[n..]).Some?
    ensures Decode(b).value == [c] + Decode(b[n..]).value
  {
    c, n := DecodeFirst(b).value.0, DecodeFirst(b).value.1;
  }

  lemma Rejoin(b: seq<Byte>, n: nat)
    requires n <= |b|
    ensures b[..n] + b[n..] == b
  {
  }

  lemma EncodeCons(c: char, rest: string)
    ensures Encode([c] + rest) == EncodeChar(c) + Encode(rest)
  {
    assert ([c] + rest)[1..] == rest;
  }

  /** UTF-8 decoding gives s exactly when the bytes are the encoding of s. */
  lemma DecodeIff(b: seq<Byte>, s: string)
    ensures Decode(b) == Some(s) <==> Encode(s) == b
  {
    if Decode(b) == Some(s) {
      DecodeIsEncoding(b);
    }
    if Encode(s) == b {
      DecodeEncode(s);
    }
  }

  /** `bytes.decode("latin-1")`: each byte becomes the character with that code; this
      decoding never fails, so its `errors="ignore"` has no effect. */
  function Latin1(b: seq<Byte>): (r: string)
    ensures |r| == |b|
    ensures forall i | 0 <= i < |b| :: r[i] as int == b[i]
  {
    seq(|b|, i requires 0 <= i < |b| => b[i] as char)
  }

  /** Latin-1 decoding is injective: distinct byte strings give distinct texts. */
  lemma Latin1Injective(a: seq<Byte>, b: seq<Byte>)
    requires Latin1(a) == Latin1(b)
    ensures a == b
  {
    assert |a| == |b|;
    forall i | 0 <= i < |a| ensures a[i] == b[i] {
      assert Latin1(a)[i] == Latin1(b)[i];
    }
  }
}
