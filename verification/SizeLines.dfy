/** What a chunk's size line may look like, and which size it announces. */
module SizeLines {
  import opened Bytes
  import opened ChunkedDecoder
  import opened Unicode

  // ---------------------------------------------------------------- numerals

  /** "0123456789abcdef" and "0123456789ABCDEF". */
  const LOWER: bytes := [48, 49, 50, 51, 52, 53, 54, 55, 56, 57, 97, 98, 99, 100, 101, 102]
  const UPPER: bytes := [48, 49, 50, 51, 52, 53, 54, 55, 56, 57, 65, 66, 67, 68, 69, 70]

  predicate IsDigit(b: byte, d: nat) {
    d < 16 && (b == LOWER[d] || b == UPPER[d])
  }

  /** The digits, of either case and with any zeros in front, stand for `n`. */
  predicate Denotes(digits: bytes, n: nat) {
    if digits == [] then n == 0
    else IsDigit(digits[|digits| - 1], n % 16) && Denotes(digits[..|digits| - 1], n / 16)
  }

  lemma DigitIsDigit(b: byte, d: nat)
    ensures HexDigit(b) == Some(d) <==> IsDigit(b, d)
  {
  }

  lemma SplitAt16(high: nat, low: nat, n: nat)
    requires low < 16
    ensures high * 16 + low == n <==> high == n / 16 && low == n % 16
  {
  }

  lemma {:induction false} DenotesIsValue(digits: bytes, n: nat)
    ensures Denotes(digits, n) <==> HexValue(digits) == Some(n)
  {
    if digits != [] {
      var k := |digits| - 1;
      hide HexDigit, IsDigit;
      var high, low := HexValue(digits[..k]), HexDigit(digits[k]);
      DenotesIsValue(digits[..k], n / 16);
      DigitIsDigit(digits[k], n % 16);
      if high.Some? && low.Some? {
        SplitAt16(high.value, low.value, n);
      }
    }
  }

  /** A number as `from_str_radix` takes it: digits, with or without a plus in front. */
  predicate Numeral(core: bytes, n: nat) {
    || (core != [] && Denotes(core, n))
    || (|core| > 1 && core[0] == PLUS && Denotes(core[1..], n))
  }

  lemma {:induction false} DigitsComeFirst(digits: bytes, n: nat)
    requires Denotes(digits, n) && digits != []
    ensures exists d: nat :: IsDigit(digits[0], d)
  {
    var k := |digits| - 1;
    if k > 0 {
      DigitsComeFirst(digits[..k], n / 16);
    }
  }

  lemma PlusIsNoDigit(d: nat)
    ensures !IsDigit(PLUS, d)
  {
  }

  lemma NumeralParses(core: bytes, n: nat)
    ensures ParseHex(core) == Some(n) <==> Numeral(core, n) && n < USIZE_LIMIT
  {
    DenotesIsValue(core, n);
    if core != [] {
      DenotesIsValue(core[1..], n);
    }
    hide HexValue, IsDigit, Denotes;
    if core != [] && core[0] == PLUS && Denotes(core, n) {
      DigitsComeFirst(core, n);
      var d: nat :| IsDigit(core[0], d);
      PlusIsNoDigit(d);
      assert false;
    }
  }

  // ---------------------------------------------------------------- white space

  /** The code points with the Unicode White_Space property. */
  predicate IsWhiteSpace(cp: nat) {
    || 0x9 <= cp <= 0xD || cp == 0x20 || cp == 0x85 || cp == 0xA0 || cp == 0x1680
    || 0x2000 <= cp <= 0x200A || cp == 0x2028 || cp == 0x2029 || cp == 0x202F || cp == 0x205F || cp == 0x3000
  }

  lemma WhiteSpaceIsSpace(cp: nat)
    requires IsWhiteSpace(cp)
    ensures IsScalar(cp) && IsSpace(Encoded(cp))
  {
    if 0x2000 <= cp < 0x2040 {
      assert cp / 4096 == 2 && cp / 64 == 128 && cp % 64 == cp - 0x2000;
    }
  }

  lemma SpaceDecodes(c: bytes) returns (cp: nat)
    requires IsSpace(c)
    ensures IsScalar(cp) && IsWhiteSpace(cp) && c == Encoded(cp)
  {
    if |c| == 1 {
      cp := c[0];
    } else if |c| == 2 {
      cp := (c[0] as nat - 0xC0) * 64 + (c[1] as nat - 0x80);
    } else {
      cp := (c[0] as nat - 0xE0) * 4096 + (c[1] as nat - 0x80) * 64 + (c[2] as nat - 0x80);
      if c[0] == 0xE2 && c[1] == 0x80 {
        assert cp == 0x2000 + (c[2] as nat - 0x80);
        assert cp / 4096 == 2 && cp / 64 == 128 && cp % 64 == c[2] as nat - 0x80;
      }
    }
  }

  /** The white space of the size line is the white space of Unicode. */
  lemma SpaceIsWhiteSpace(c: bytes)
    ensures IsSpace(c) <==> exists cp: nat :: IsScalar(cp) && IsWhiteSpace(cp) && c == Encoded(cp)
  {
    hide IsSpace, IsWhiteSpace, Encoded;
    if IsSpace(c) {
      var cp := SpaceDecodes(c);
    } else if cp: nat :| IsScalar(cp) && IsWhiteSpace(cp) && c == Encoded(cp) {
      WhiteSpaceIsSpace(cp);
    }
  }

  predicate AllSpaces(chars: seq<bytes>) {
    forall c :: c in chars ==> IsSpace(c)
  }

  lemma StartPeels(c: bytes, t: bytes)
    requires IsSpace(c)
    ensures |c| > 0 && SpaceAtStart(c + t) == |c| && (c + t)[|c|..] == t
  {
    var s := c + t;
    assert s[..|c|] == c;
    if |c| >= 2 {
      assert s[..1] == [c[0]];
    }
    if |c| == 3 {
      assert s[..2] == [c[0], c[1]];
    }
  }

  lemma EndPeels(t: bytes, c: bytes)
    requires IsSpace(c)
    ensures |c| > 0 && SpaceAtEnd(t + c) == |c| && (t + c)[..|t|] == t
  {
    var s, n := t + c, |t + c|;
    assert s[n - |c|..] == c;
    if |c| >= 2 {
      assert s[n - 1..] == [c[|c| - 1]];
    }
    if |c| == 3 {
      assert s[n - 2..] == [c[1], c[2]];
    }
  }

  lemma {:induction false} TrimStartSkips(chars: seq<bytes>, t: bytes)
    requires AllSpaces(chars)
    ensures TrimStart(Concat(chars) + t) == TrimStart(t)
  {
    if chars == [] {
      assert [] + t == t;
    } else {
      var c, rest := chars[0], Concat(chars[1..]) + t;
      assert Concat(chars) + t == c + rest && c in chars;
      assert AllSpaces(chars[1..]);
      TrimStartSkips(chars[1..], t);
      StartPeels(c, rest);
      hide SpaceAtStart, Concat, AllSpaces;
    }
  }

  lemma {:induction false} TrimEndSkips(t: bytes, chars: seq<bytes>)
    requires AllSpaces(chars)
    ensures TrimEnd(t + Concat(chars)) == TrimEnd(t)
    decreases |chars|
  {
    if chars == [] {
      assert t + [] == t;
    } else {
      var k := |chars| - 1;
      var c, rest := chars[k], t + Concat(chars[..k]);
      ConcatSnoc(chars[..k], c);
      assert chars[..k] + [c] == chars && c in chars && AllSpaces(chars[..k]);
      assert t + Concat(chars) == rest + c;
      TrimEndSkips(t, chars[..k]);
      EndPeels(rest, c);
      hide SpaceAtEnd, Concat, AllSpaces;
    }
  }

  lemma ConsSpaces(c: bytes, rest: seq<bytes>, t: bytes)
    requires IsSpace(c) && AllSpaces(rest)
    ensures AllSpaces([c] + rest) && Concat([c] + rest) + t == c + (Concat(rest) + t)
  {
    hide IsSpace;
    assert ([c] + rest)[1..] == rest;
    assert (c + Concat(rest)) + t == c + (Concat(rest) + t);
  }

  lemma SnocSpaces(t: bytes, rest: seq<bytes>, c: bytes)
    requires AllSpaces(rest) && IsSpace(c)
    ensures AllSpaces(rest + [c]) && t + Concat(rest + [c]) == (t + Concat(rest)) + c
  {
    hide IsSpace;
    ConcatSnoc(rest, c);
    hide Concat;
    assert t + (Concat(rest) + c) == (t + Concat(rest)) + c;
  }

  lemma StartSteps(s: bytes)
    ensures var n := SpaceAtStart(s);
            if n == 0 then TrimStart(s) == s else IsSpace(s[..n]) && TrimStart(s) == TrimStart(s[n..])
  {
    hide IsSpace;
  }

  lemma EndSteps(s: bytes)
    ensures var n := SpaceAtEnd(s);
            if n == 0 then TrimEnd(s) == s else IsSpace(s[|s| - n..]) && TrimEnd(s) == TrimEnd(s[..|s| - n])
  {
    hide IsSpace;
  }

  lemma NoSpaces(s: bytes)
    ensures AllSpaces([]) && Concat([]) + s == s && s + Concat([]) == s
  {
  }

  lemma {:induction false} TrimStartIs(s: bytes) returns (chars: seq<bytes>)
    ensures AllSpaces(chars) && s == Concat(chars) + TrimStart(s)
    decreases |s|
  {
    hide *;
    var n := SpaceAtStart(s);
    StartSteps(s);
    if n == 0 {
      chars := [];
      NoSpaces(s);
    } else {
      var rest := TrimStartIs(s[n..]);
      chars := [s[..n]] + rest;
      ConsSpaces(s[..n], rest, TrimStart(s));
      assert s == s[..n] + s[n..];
    }
  }

  lemma {:induction false} TrimEndIs(s: bytes) returns (chars: seq<bytes>)
    ensures AllSpaces(chars) && s == TrimEnd(s) + Concat(chars)
    decreases |s|
  {
    hide *;
    var n := SpaceAtEnd(s);
    EndSteps(s);
    if n == 0 {
      chars := [];
      NoSpaces(s);
    } else {
      var rest := TrimEndIs(s[..|s| - n]);
      chars := rest + [s[|s| - n..]];
      SnocSpaces(TrimEnd(s), rest, s[|s| - n..]);
      assert s == s[..|s| - n] + s[|s| - n..];
    }
  }

  // ---------------------------------------------------------------- the line

  /** A plus or a digit. */
  predicate Plain(b: byte) {
    b == PLUS || 48 <= b <= 57 || 65 <= b <= 70 || 97 <= b <= 102
  }

  lemma {:induction false} DigitsArePlain(digits: bytes, n: nat)
    requires Denotes(digits, n)
    ensures forall i :: 0 <= i < |digits| ==> Plain(digits[i])
  {
    if digits != [] {
      var k := |digits| - 1;
      DigitsArePlain(digits[..k], n / 16);
      assert Plain(digits[k]);
      forall i | 0 <= i < k
        ensures Plain(digits[i])
      {
        assert digits[..k][i] == digits[i];
      }
    }
  }

  lemma NumeralIsPlain(core: bytes, n: nat)
    requires Numeral(core, n)
    ensures core != [] && forall i :: 0 <= i < |core| ==> Plain(core[i])
  {
    assert Plain(PLUS);
    hide Denotes, Plain;
    if Denotes(core, n) {
      DigitsArePlain(core, n);
    } else {
      DigitsArePlain(core[1..], n);
      forall i | 0 <= i < |core|
        ensures Plain(core[i])
      {
        if i > 0 {
          assert core[i] == core[1..][i - 1];
        }
      }
    }
  }

  lemma SpaceIsNotPlain(c: bytes)
    requires IsSpace(c)
    ensures c != [] && !Plain(c[0]) && !Plain(c[|c| - 1]) && SEMICOLON !in c
  {
  }

  lemma PlainIsNotTrimmed(core: bytes, t: bytes)
    requires core != [] && Plain(core[0]) && Plain(core[|core| - 1])
    ensures TrimStart(core + t) == core + t && TrimEnd(core) == core
  {
    hide IsSpace, Plain;
    var n, m := SpaceAtStart(core + t), SpaceAtEnd(core);
    if n > 0 {
      SpaceIsNotPlain((core + t)[..n]);
      assert false;
    }
    if m > 0 {
      SpaceIsNotPlain(core[|core| - m..]);
      assert false;
    }
  }

  lemma {:induction false} SpacesHaveNoSemicolon(chars: seq<bytes>)
    requires AllSpaces(chars)
    ensures SEMICOLON !in Concat(chars)
  {
    if chars != [] {
      assert chars[0] in chars && AllSpaces(chars[1..]);
      SpaceIsNotPlain(chars[0]);
      SpacesHaveNoSemicolon(chars[1..]);
    }
  }

  lemma {:induction false} CutAtSemicolon(s: bytes, ext: bytes)
    requires SEMICOLON !in s && (ext == [] || ext[0] == SEMICOLON)
    ensures BeforeSemicolon(s + ext) == s
  {
    if s == [] {
      assert [] + ext == ext;
    } else {
      assert s[0] in s && (s + ext)[1..] == s[1..] + ext;
      CutAtSemicolon(s[1..], ext);
    }
  }

  lemma {:induction false} SemicolonCuts(s: bytes)
    ensures var x := BeforeSemicolon(s);
            |x| <= |s| && s == x + s[|x|..] && (|x| == |s| || s[|x|] == SEMICOLON)
  {
    if s != [] && s[0] != SEMICOLON {
      SemicolonCuts(s[1..]);
    }
  }

  /** White space, a number, white space, and perhaps an extension behind a semicolon. */
  predicate Shape(line: bytes, before: seq<bytes>, core: bytes, after: seq<bytes>, ext: bytes) {
    && AllSpaces(before) && AllSpaces(after) && (ext == [] || ext[0] == SEMICOLON)
    && line == Concat(before) + core + Concat(after) + ext
  }

  ghost predicate Announces(line: bytes, n: nat) {
    exists before, core, after, ext :: Shape(line, before, core, after, ext) && Numeral(core, n)
  }

  lemma ShapeIsTrimmed(line: bytes, before: seq<bytes>, core: bytes, after: seq<bytes>, ext: bytes, n: nat)
    requires Shape(line, before, core, after, ext) && Numeral(core, n)
    ensures TrimEnd(TrimStart(BeforeSemicolon(line))) == core
  {
    NumeralIsPlain(core, n);
    SpacesHaveNoSemicolon(before);
    SpacesHaveNoSemicolon(after);
    assert !Plain(SEMICOLON);
    hide Numeral, Plain, AllSpaces, Concat, BeforeSemicolon, TrimStart, TrimEnd;
    var a, b := Concat(before), Concat(after);
    assert a + core + b == a + (core + b);
    CutAtSemicolon(a + core + b, ext);
    TrimStartSkips(before, core + b);
    PlainIsNotTrimmed(core, b);
    TrimEndSkips(core, after);
  }

  lemma TrimmedIsShape(line: bytes)
    ensures exists before, after, ext :: Shape(line, before, TrimEnd(TrimStart(BeforeSemicolon(line))), after, ext)
  {
    var x := BeforeSemicolon(line);
    SemicolonCuts(line);
    hide BeforeSemicolon, TrimStart, TrimEnd, AllSpaces, Concat;
    var before := TrimStartIs(x);
    var after := TrimEndIs(TrimStart(x));
    var a, core, b := Concat(before), TrimEnd(TrimStart(x)), Concat(after);
    assert x == a + (core + b) && a + (core + b) == a + core + b;
    assert Shape(line, before, core, after, line[|x|..]);
  }

  /** A line announces a size exactly when it is UTF-8 and consists of white space, a
      hexadecimal number below 2^64, white space and perhaps an extension. */
  lemma LineSizeExactly(line: bytes, n: nat)
    ensures LineSize(line) == Some(n) <==> Utf8(line) && n < USIZE_LIMIT && Announces(line, n)
  {
    hide Utf8, Shape, Numeral, ParseHex, BeforeSemicolon, TrimStart, TrimEnd;
    var core := TrimEnd(TrimStart(BeforeSemicolon(line)));
    NumeralParses(core, n);
    TrimmedIsShape(line);
    if Announces(line, n) {
      var before, core', after, ext :| Shape(line, before, core', after, ext) && Numeral(core', n);
      ShapeIsTrimmed(line, before, core', after, ext, n);
    }
  }
}
