/** Bytes, the small wrappers, and the text rules shared by every wire format. */
module Bytes {
  type byte = b: int | 0 <= b < 256
  type bytes = seq<byte>

  datatype Option<+T> = None | Some(value: T)
  datatype Result<+T, +E> = Ok(value: T) | Err(error: E)

  function Min(a: nat, b: nat): nat {
    if a < b then a else b
  }

  /** All chunks, end to end. */
  function Concat(chunks: seq<bytes>): bytes {
    if chunks == [] then [] else chunks[0] + Concat(chunks[1..])
  }

  lemma {:induction false} ConcatAppend(a: seq<bytes>, b: seq<bytes>)
    ensures Concat(a + b) == Concat(a) + Concat(b)
  {
    if a == [] {
      assert a + b == b;
    } else {
      assert (a + b)[1..] == a[1..] + b;
      ConcatAppend(a[1..], b);
    }
  }

  lemma ConcatOne(c: bytes)
    ensures Concat([c]) == c
  {
    assert [c][1..] == [];
  }

  lemma ConcatSnoc(a: seq<bytes>, c: bytes)
    ensures Concat(a + [c]) == Concat(a) + c
  {
    ConcatAppend(a, [c]);
    ConcatOne(c);
  }

  lemma SliceOfPrefix(s: bytes, n: nat, i: nat, j: nat)
    requires i <= j <= n <= |s|
    ensures s[..n][i..j] == s[i..j]
  {
  }

  // UTF-8, by the byte ranges of Table 3-7 of the Unicode Standard.

  predicate Continues(s: bytes, i: nat) {
    i < |s| && 0x80 <= s[i] <= 0xBF
  }

  /** Length of the well-formed character `s` starts with, 0 when there is none. */
  function CharLength(s: bytes): (n: nat)
    ensures n <= |s|
  {
    if s == [] then 0
    else if s[0] < 0x80 then 1
    else if 0xC2 <= s[0] <= 0xDF && Continues(s, 1) then 2
    else if 0xE0 <= s[0] <= 0xEF && Continues(s, 1) && Continues(s, 2)
            && (s[0] == 0xE0 ==> 0xA0 <= s[1]) && (s[0] == 0xED ==> s[1] <= 0x9F) then 3
    else if 0xF0 <= s[0] <= 0xF4 && Continues(s, 1) && Continues(s, 2) && Continues(s, 3)
            && (s[0] == 0xF0 ==> 0x90 <= s[1]) && (s[0] == 0xF4 ==> s[1] <= 0x8F) then 4
    else 0
  }

  predicate Utf8(s: bytes)
    decreases |s|
  {
    s == [] || (CharLength(s) > 0 && Utf8(s[CharLength(s)..]))
  }

  lemma {:induction false} AsciiIsUtf8(s: bytes)
    requires forall i :: 0 <= i < |s| ==> s[i] < 0x80
    ensures Utf8(s)
    decreases |s|
  {
    if s != [] {
      AsciiIsUtf8(s[1..]);
    }
  }

  // Big-endian 16-bit words.

  function Word(hi: byte, lo: byte): (w: nat)
    ensures w < 0x1_0000
  {
    hi * 256 + lo
  }

  function WordBytes(w: nat): (b: bytes)
    requires w < 0x1_0000
    ensures |b| == 2 && Word(b[0], b[1]) == w
  {
    [w / 256, w % 256]
  }

  /** Words go over the wire high byte first. */
  lemma WordsAreBigEndian(hi: byte, lo: byte)
    ensures Word(hi, lo) == 256 * hi as nat + lo as nat && WordBytes(256 * hi as nat + lo as nat) == [hi, lo]
  {
    var w: nat := 256 * hi as nat + lo as nat;
    assert w / 256 == hi as nat;
    assert w % 256 == lo as nat;
  }
}
