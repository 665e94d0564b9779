/** Request paths of the packet-up protocol: built by the client, taken apart by the server. */
module XhttpPath {
  import opened Bytes

  const U64_LIMIT: nat := 0x1_0000_0000_0000_0000

  predicate Contains(s: string, c: char) {
    exists i :: 0 <= i < |s| && s[i] == c
  }

  /** The parts of `s` between slashes; there is always at least one. */
  function Split(s: string): (parts: seq<string>)
    ensures |parts| > 0
  {
    if s == [] then [""]
    else if s[0] == '/' then [""] + Split(s[1..])
    else
      var rest := Split(s[1..]);
      [[s[0]] + rest[0]] + rest[1..]
  }

  function TrimLeft(s: string): string {
    if s != [] && s[0] == '/' then TrimLeft(s[1..]) else s
  }

  function TrimRight(s: string): string {
    if s != [] && s[|s| - 1] == '/' then TrimRight(s[..|s| - 1]) else s
  }

  /** Session and sequence text of a request path. */
  function ExtractMeta(path: string, base: string): (string, string) {
    var suffix := if base <= path then path[|base|..] else path;
    var trimmed := TrimRight(TrimLeft(suffix));
    if trimmed == [] then ("", "")
    else
      var parts := Split(trimmed);
      (parts[0], if |parts| > 1 then parts[1] else "")
  }

  function Digit(d: nat): char
    requires d < 10
  {
    '0' + d as char
  }

  /** Decimal without leading zeros. */
  function Decimal(n: nat): string {
    if n < 10 then [Digit(n)] else Decimal(n / 10) + [Digit(n % 10)]
  }

  function DecimalValue(s: string): Option<nat> {
    if s == [] then Some(0)
    else
      var high := DecimalValue(s[..|s| - 1]);
      var c := s[|s| - 1];
      if high.Some? && '0' <= c <= '9' then Some(high.value * 10 + (c - '0') as nat) else None
  }

  /** `str::parse::<u64>`. */
  function ParseU64(s: string): Option<nat> {
    var digits := if s != [] && s[0] == '+' then s[1..] else s;
    if digits == [] then None
    else
      var v := DecimalValue(digits);
      if v.Some? && v.value < U64_LIMIT then v else None
  }

  function PostPath(base: string, session: string, n: nat): string {
    base + "/" + session + "/" + Decimal(n)
  }

  lemma {:induction false} DecimalShape(n: nat)
    ensures |Decimal(n)| > 0 && forall i :: 0 <= i < |Decimal(n)| ==> '0' <= Decimal(n)[i] <= '9'
  {
    if n >= 10 {
      DecimalShape(n / 10);
    }
  }

  lemma {:induction false} DecimalReadsBack(n: nat)
    ensures DecimalValue(Decimal(n)) == Some(n)
  {
    if n < 10 {
      assert [Digit(n)][..0] == [];
    } else {
      DecimalReadsBack(n / 10);
      var s := Decimal(n);
      assert s[..|s| - 1] == Decimal(n / 10);
    }
  }

  lemma SeqReadsBack(n: nat)
    requires n < U64_LIMIT
    ensures ParseU64(Decimal(n)) == Some(n)
  {
    DecimalShape(n);
    DecimalReadsBack(n);
    assert Decimal(n)[0] != '+';
  }

  lemma {:induction false} SplitWord(s: string)
    requires !Contains(s, '/')
    ensures Split(s) == [s]
  {
    if s != [] {
      assert s[0] != '/';
      assert forall i :: 0 <= i < |s[1..]| ==> s[1..][i] == s[i + 1];
      SplitWord(s[1..]);
      assert s == [s[0]] + s[1..];
    }
  }

  lemma {:induction false} SplitAt(a: string, b: string)
    requires !Contains(a, '/')
    ensures Split(a + "/" + b) == [a] + Split(b)
  {
    var s := a + "/" + b;
    if a == [] {
      assert s[1..] == b;
    } else {
      assert a[0] != '/';
      assert forall i :: 0 <= i < |a[1..]| ==> a[1..][i] == a[i + 1];
      SplitAt(a[1..], b);
      assert s[1..] == a[1..] + "/" + b;
      assert a == [a[0]] + a[1..];
    }
  }

  /** The server reads the session and the number the client put into the path. */
  lemma PathReadsBack(base: string, session: string, n: nat)
    requires session != [] && !Contains(session, '/') && n < U64_LIMIT
    ensures var (id, number) := ExtractMeta(PostPath(base, session, n), base);
            id == session && ParseU64(number) == Some(n)
  {
    var path := PostPath(base, session, n);
    var d := Decimal(n);
    var t := session + "/" + d;
    DecimalShape(n);
    assert session[0] != '/';
    assert path[|base|..] == "/" + t;
    assert ("/" + t)[1..] == t;
    assert t[0] == session[0] && t[|t| - 1] == d[|d| - 1];
    assert TrimLeft("/" + t) == TrimLeft(t) == t;
    assert TrimRight(t) == t;
    SplitAt(session, d);
    SplitWord(d);
    SeqReadsBack(n);
  }

  // ---------------------------------------------------------------- any path

  predicate AllSlashes(s: string) {
    forall i :: 0 <= i < |s| ==> s[i] == '/'
  }

  lemma {:induction false} TrimLeftSkips(left: string, s: string)
    requires AllSlashes(left) && (s == [] || s[0] != '/')
    ensures TrimLeft(left + s) == s
  {
    if left == [] {
      assert left + s == s;
    } else {
      assert (left + s)[1..] == left[1..] + s;
      TrimLeftSkips(left[1..], s);
    }
  }

  lemma {:induction false} TrimRightSkips(s: string, right: string)
    requires AllSlashes(right) && (s == [] || s[|s| - 1] != '/')
    ensures TrimRight(s + right) == s
    decreases |right|
  {
    if right == [] {
      assert s + right == s;
    } else {
      var k := |right| - 1;
      assert (s + right)[..|s| + k] == s + right[..k];
      TrimRightSkips(s, right[..k]);
    }
  }

  /** What is behind the base, or the whole path when it does not start with the base. */
  predicate Suffix(path: string, base: string, suffix: string) {
    path == base + suffix || (!(base <= path) && path == suffix)
  }

  lemma TrimsToCore(path: string, base: string, left: string, core: string, right: string)
    requires Suffix(path, base, left + core + right) && AllSlashes(left) && AllSlashes(right)
    requires core != [] && core[0] != '/' && core[|core| - 1] != '/'
    ensures var parts := Split(core);
            ExtractMeta(path, base) == (parts[0], if |parts| > 1 then parts[1] else "")
  {
    var suffix := left + core + right;
    assert base <= path ==> path[|base|..] == suffix;
    assert suffix == left + (core + right);
    TrimLeftSkips(left, core + right);
    TrimRightSkips(core, right);
    hide Split, AllSlashes, TrimLeft, TrimRight;
  }

  lemma {:induction false} FirstPart(b: string, tail: string)
    requires !Contains(b, '/') && (tail == [] || tail[0] == '/')
    ensures Split(b + tail)[0] == b
  {
    if tail == [] {
      assert b + tail == b;
      SplitWord(b);
    } else {
      assert b + tail == b + "/" + tail[1..];
      SplitAt(b, tail[1..]);
    }
  }

  /** Any path: slashes around it do not matter, the first part is the session, the second the
      sequence text, and further parts are ignored. */
  lemma MetaOfTwo(path: string, base: string, left: string, a: string, b: string, tail: string, right: string)
    requires a != [] && !Contains(a, '/') && !Contains(b, '/') && (tail == [] || tail[0] == '/')
    requires AllSlashes(left) && AllSlashes(right)
    requires var core := a + "/" + (b + tail); core[|core| - 1] != '/' && Suffix(path, base, left + core + right)
    ensures ExtractMeta(path, base) == (a, b)
  {
    var core := a + "/" + (b + tail);
    assert core[0] == a[0] && a[0] != '/';
    TrimsToCore(path, base, left, core, right);
    SplitAt(a, b + tail);
    FirstPart(b, tail);
  }

  lemma MetaOfOne(path: string, base: string, left: string, a: string, right: string)
    requires a != [] && !Contains(a, '/') && AllSlashes(left) && AllSlashes(right) && Suffix(path, base, left + a + right)
    ensures ExtractMeta(path, base) == (a, "")
  {
    assert a[0] != '/' && a[|a| - 1] != '/';
    TrimsToCore(path, base, left, a, right);
    SplitWord(a);
  }

  lemma MetaOfNone(path: string, base: string, slashes: string)
    requires AllSlashes(slashes) && Suffix(path, base, slashes)
    ensures ExtractMeta(path, base) == ("", "")
  {
    assert base <= path ==> path[|base|..] == slashes;
    assert slashes + [] == slashes;
    TrimLeftSkips(slashes, []);
  }

  // ---------------------------------------------------------------- any number

  const DIGITS: string := "0123456789"

  /** The digits, with any zeros in front, stand for `n`. */
  predicate Denotes(digits: string, n: nat) {
    if digits == [] then n == 0
    else digits[|digits| - 1] == DIGITS[n % 10] && Denotes(digits[..|digits| - 1], n / 10)
  }

  lemma DigitIs(c: char, d: nat)
    requires d < 10
    ensures c == DIGITS[d] <==> '0' <= c <= '9' && (c - '0') as nat == d
  {
  }

  lemma SplitAt10(high: nat, low: nat, n: nat)
    requires low < 10
    ensures high * 10 + low == n <==> high == n / 10 && low == n % 10
  {
  }

  lemma {:induction false} DenotesIsValue(digits: string, n: nat)
    ensures Denotes(digits, n) <==> DecimalValue(digits) == Some(n)
  {
    if digits != [] {
      var k := |digits| - 1;
      DenotesIsValue(digits[..k], n / 10);
      DigitIs(digits[k], n % 10);
      hide DIGITS;
      var high, c := DecimalValue(digits[..k]), digits[k];
      if high.Some? && '0' <= c <= '9' {
        SplitAt10(high.value, (c - '0') as nat, n);
      }
    }
  }

  /** A sequence text is a number exactly when it consists of decimal digits, with or without a
      plus in front, and fits into 64 bits. */
  lemma NumberExactly(s: string, n: nat)
    ensures ParseU64(s) == Some(n) <==>
            && n < U64_LIMIT
            && ((s != [] && s[0] != '+' && Denotes(s, n)) || (|s| > 1 && s[0] == '+' && Denotes(s[1..], n)))
  {
    DenotesIsValue(s, n);
    if s != [] {
      DenotesIsValue(s[1..], n);
    }
    hide Denotes, DecimalValue;
  }
}
