/** UTF-8 as the encoding of code points: what the byte ranges of `Utf8` let through. */
module Unicode {
  import opened Bytes

  /** A code point that is not a surrogate. */
  predicate IsScalar(cp: nat) {
    cp < 0xD800 || 0xE000 <= cp < 0x11_0000
  }

  function Encoded(cp: nat): bytes
    requires IsScalar(cp)
  {
    if cp < 0x80 then [cp]
    else if cp < 0x800 then [0xC0 + cp / 64, 0x80 + cp % 64]
    else if cp < 0x1_0000 then [0xE0 + cp / 4096, 0x80 + cp / 64 % 64, 0x80 + cp % 64]
    else [0xF0 + cp / 262144, 0x80 + cp / 4096 % 64, 0x80 + cp / 64 % 64, 0x80 + cp % 64]
  }

  predicate IsText(text: seq<nat>) {
    forall i :: 0 <= i < |text| ==> IsScalar(text[i])
  }

  function EncodeText(text: seq<nat>): bytes
    requires IsText(text)
  {
    if text == [] then [] else Encoded(text[0]) + EncodeText(text[1..])
  }

  // ---------------------------------------------------------------- one character

  lemma ThreeRanges(cp: nat)
    requires IsScalar(cp) && 0x800 <= cp < 0x1_0000
    ensures var a, b := cp / 4096, cp / 64 % 64; a < 16 && (a == 0 ==> b >= 0x20) && (a == 13 ==> b < 0x20)
  {
  }

  lemma FourRanges(cp: nat)
    requires 0x1_0000 <= cp < 0x11_0000
    ensures var a, b := cp / 262144, cp / 4096 % 64; a < 5 && (a == 0 ==> b >= 0x10) && (a == 4 ==> b < 0x10)
  {
  }

  lemma ThreeAreChar(a: nat, b: nat, c: nat)
    requires a < 16 && b < 64 && c < 64 && (a == 0 ==> b >= 0x20) && (a == 13 ==> b < 0x20)
    ensures CharLength([0xE0 + a, 0x80 + b, 0x80 + c]) == 3
  {
  }

  lemma FourAreChar(a: nat, b: nat, c: nat, d: nat)
    requires a < 5 && b < 64 && c < 64 && d < 64 && (a == 0 ==> b >= 0x10) && (a == 4 ==> b < 0x10)
    ensures CharLength([0xF0 + a, 0x80 + b, 0x80 + c, 0x80 + d]) == 4
  {
  }

  lemma EncodedIsChar(cp: nat)
    requires IsScalar(cp)
    ensures CharLength(Encoded(cp)) == |Encoded(cp)| > 0
  {
    if 0x1_0000 <= cp {
      hide CharLength;
      FourRanges(cp);
      FourAreChar(cp / 262144, cp / 4096 % 64, cp / 64 % 64, cp % 64);
    } else if 0x800 <= cp {
      hide CharLength;
      ThreeRanges(cp);
      ThreeAreChar(cp / 4096, cp / 64 % 64, cp % 64);
    }
  }

  lemma CharStands(s: bytes, t: bytes)
    requires CharLength(s) > 0
    ensures CharLength(s + t) == CharLength(s)
  {
    var u := s + t;
    assert u[..|s|] == s;
    assert u[0] == s[0];
  }

  // Code points in base 64.

  lemma PiecesOfTwo(a: nat, b: nat)
    requires b < 64
    ensures var cp := a * 64 + b; cp / 64 == a && cp % 64 == b
  {
  }

  lemma PiecesOfThree(a: nat, b: nat, c: nat)
    requires b < 64 && c < 64
    ensures var cp := a * 4096 + b * 64 + c; cp / 4096 == a && cp / 64 % 64 == b && cp % 64 == c
  {
    PiecesOfTwo(a * 64 + b, c);
    PiecesOfTwo(a, b);
  }

  lemma PiecesOfFour(a: nat, b: nat, c: nat, d: nat)
    requires b < 64 && c < 64 && d < 64
    ensures var cp := a * 262144 + b * 4096 + c * 64 + d;
            cp / 262144 == a && cp / 4096 % 64 == b && cp / 64 % 64 == c && cp % 64 == d
  {
    PiecesOfThree(a * 64 + b, c, d);
    PiecesOfTwo(a, b);
  }

  lemma ShortDecodes(s: bytes) returns (cp: nat)
    requires 1 <= CharLength(s) <= 2
    ensures IsScalar(cp) && Encoded(cp) == s[..CharLength(s)]
  {
    if CharLength(s) == 1 {
      cp := s[0];
    } else {
      var a, b := s[0] as nat - 0xC0, s[1] as nat - 0x80;
      cp := a * 64 + b;
      PiecesOfTwo(a, b);
    }
  }

  lemma ThreeDecode(s: bytes) returns (cp: nat)
    requires CharLength(s) == 3
    ensures IsScalar(cp) && Encoded(cp) == s[..3]
  {
    var a, b, c := s[0] as nat - 0xE0, s[1] as nat - 0x80, s[2] as nat - 0x80;
    cp := a * 4096 + b * 64 + c;
    PiecesOfThree(a, b, c);
  }

  lemma FourDecode(s: bytes) returns (cp: nat)
    requires CharLength(s) == 4
    ensures IsScalar(cp) && Encoded(cp) == s[..4]
  {
    var a, b, c, d := s[0] as nat - 0xF0, s[1] as nat - 0x80, s[2] as nat - 0x80, s[3] as nat - 0x80;
    cp := a * 262144 + b * 4096 + c * 64 + d;
    PiecesOfFour(a, b, c, d);
  }

  /** A character that the byte ranges let through encodes a code point. */
  lemma CharDecodes(s: bytes) returns (cp: nat)
    requires CharLength(s) > 0
    ensures IsScalar(cp) && Encoded(cp) == s[..CharLength(s)]
  {
    assert CharLength(s) <= 4;
    hide *;
    if CharLength(s) <= 2 {
      cp := ShortDecodes(s);
    } else if CharLength(s) == 3 {
      cp := ThreeDecode(s);
    } else {
      cp := FourDecode(s);
    }
  }

  // ---------------------------------------------------------------- text

  lemma {:induction false} TextIsUtf8(text: seq<nat>)
    requires IsText(text)
    ensures Utf8(EncodeText(text))
  {
    hide CharLength, Encoded, IsScalar;
    if text != [] {
      TextIsUtf8(text[1..]);
      var c, rest := Encoded(text[0]), EncodeText(text[1..]);
      EncodedIsChar(text[0]);
      CharStands(c, rest);
      assert (c + rest)[|c|..] == rest;
    }
  }

  lemma TextBehind(cp: nat, rest: seq<nat>)
    requires IsScalar(cp) && IsText(rest)
    ensures IsText([cp] + rest) && EncodeText([cp] + rest) == Encoded(cp) + EncodeText(rest)
  {
    hide Encoded, IsScalar;
    assert ([cp] + rest)[1..] == rest;
  }

  lemma {:induction false} Utf8Decodes(s: bytes) returns (text: seq<nat>)
    requires Utf8(s)
    ensures IsText(text) && s == EncodeText(text)
    decreases |s|
  {
    hide CharLength, Encoded, IsScalar;
    if s == [] {
      text := [];
    } else {
      var n := CharLength(s);
      var cp := CharDecodes(s);
      var rest := Utf8Decodes(s[n..]);
      text := [cp] + rest;
      TextBehind(cp, rest);
      assert s == s[..n] + s[n..];
    }
  }

  /** Exactly the encodings of code points that are not surrogates pass for text. */
  lemma Utf8Exactly(s: bytes)
    ensures Utf8(s) <==> exists text :: IsText(text) && s == EncodeText(text)
  {
    hide Utf8, IsText, EncodeText;
    if Utf8(s) {
      var text := Utf8Decodes(s);
    } else if text :| IsText(text) && s == EncodeText(text) {
      TextIsUtf8(text);
    }
  }
}
