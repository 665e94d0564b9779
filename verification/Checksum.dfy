/** The Internet checksum (RFC 1071) and the ICMP message it protects. */
module Checksum {
  import opened Bytes

  const U32_LIMIT: nat := 0x1_0000_0000
  const MIN_TUN_MTU: nat := 576
  const IPV4_HEADER_LEN: nat := 20
  const ICMP_HEADER_LEN: nat := 8
  const UDP_HEADER_LEN: nat := 8

  // ---------------------------------------------------------------- the checksum

  /** Sum of the big-endian 16-bit words; an odd last byte counts as the high half of one. */
  function Sum(s: bytes): nat {
    if s == [] then 0
    else if |s| == 1 then s[0] * 256
    else Word(s[0], s[1]) + Sum(s[2..])
  }

  /** Carries added back until there are none. */
  function Fold(n: nat): (r: nat)
    ensures r < 0x1_0000
  {
    if n < 0x1_0000 then n else Fold(n % 0x1_0000 + n / 0x1_0000)
  }

  function Checksum(s: bytes): nat {
    0xFFFF - Fold(Sum(s))
  }

  lemma ResidueShifts(m: nat, k: nat)
    ensures (m + k * 0xFFFF) % 0xFFFF == m % 0xFFFF
  {
  }

  /** Folding keeps the value modulo 65535, and only zero folds to zero. */
  lemma {:induction false} FoldKeepsResidue(n: nat)
    ensures Fold(n) % 0xFFFF == n % 0xFFFF && (Fold(n) == 0 <==> n == 0)
    decreases n
  {
    if n >= 0x1_0000 {
      var m := n % 0x1_0000 + n / 0x1_0000;
      assert n == m + n / 0x1_0000 * 0xFFFF;
      FoldKeepsResidue(m);
      ResidueShifts(m, n / 0x1_0000);
    }
  }

  /** A message verifies exactly when its words add up to a positive multiple of 65535. */
  lemma Verifies(s: bytes)
    ensures Checksum(s) == 0 <==> Sum(s) > 0 && Sum(s) % 0xFFFF == 0
  {
    FoldKeepsResidue(Sum(s));
  }

  function Stored(s: bytes, at: nat, w: nat): bytes
    requires at + 2 <= |s| && w < 0x1_0000
  {
    s[..at] + WordBytes(w) + s[at + 2..]
  }

  lemma {:induction false} SumOfStored(s: bytes, at: nat, w: nat)
    requires at % 2 == 0 && at + 2 <= |s| && w < 0x1_0000
    ensures Sum(Stored(s, at, w)) + Word(s[at], s[at + 1]) == Sum(s) + w
  {
    var t := Stored(s, at, w);
    if at == 0 {
      assert t[2..] == s[2..];
    } else {
      assert t[2..] == Stored(s[2..], at - 2, w);
      SumOfStored(s[2..], at - 2, w);
    }
  }

  lemma Complement(n: nat, f: nat)
    requires f < 0x1_0000 && f % 0xFFFF == n % 0xFFFF && (f == 0 <==> n == 0)
    ensures (n + 0xFFFF - f) > 0 && (n + 0xFFFF - f) % 0xFFFF == 0
  {
  }

  /** Storing the checksum of a message into a zero field at an even place makes the
      message verify, whatever its length. */
  lemma StoredChecksumVerifies(s: bytes, at: nat)
    requires at % 2 == 0 && at + 2 <= |s| && s[at] == 0 && s[at + 1] == 0
    ensures Checksum(Stored(s, at, Checksum(s))) == 0
  {
    var f := Fold(Sum(s));
    FoldKeepsResidue(Sum(s));
    SumOfStored(s, at, 0xFFFF - f);
    Verifies(Stored(s, at, 0xFFFF - f));
    Complement(Sum(s), f);
  }

  lemma {:induction false} SumIsSmall(s: bytes)
    ensures Sum(s) <= 0xFFFF * ((|s| + 1) / 2)
  {
    if |s| >= 2 {
      SumIsSmall(s[2..]);
    }
  }

  lemma {:induction false} SumSplits(s: bytes, i: nat)
    requires i % 2 == 0 && i <= |s|
    ensures Sum(s) == Sum(s[..i]) + Sum(s[i..])
  {
    if i == 0 {
      assert s[0..] == s;
    } else {
      SumSplits(s[2..], i - 2);
      assert s[2..][..i - 2] == s[..i][2..] && s[2..][i - 2..] == s[i..];
    }
  }

  lemma SumOfPair(a: byte, b: byte)
    ensures Sum([a, b]) == Word(a, b)
  {
    assert [a, b][2..] == [];
  }

  lemma SumGrows(data: bytes, i: nat)
    requires i % 2 == 0 && i + 1 < |data|
    ensures Sum(data[..i + 2]) == Sum(data[..i]) + Word(data[i], data[i + 1]) <= Sum(data)
  {
    hide Sum, Word;
    SumSplits(data[..i + 2], i);
    SumSplits(data, i + 2);
    SumOfPair(data[i], data[i + 1]);
    assert data[..i + 2][..i] == data[..i] && data[..i + 2][i..] == [data[i], data[i + 1]];
  }

  lemma SumEnds(data: bytes, i: nat)
    requires i % 2 == 0 && i <= |data| <= i + 1
    ensures Sum(data) == Sum(data[..i]) + if i < |data| then Word(data[i], 0) else 0
  {
    SumSplits(data, i);
    if i < |data| {
      assert data[i..] == [data[i]];
    }
  }

  lemma EmptySum()
    ensures Sum([]) == 0
  {
  }

  /** A short message's sum never wraps. */
  lemma SumFits(data: bytes, n: nat)
    requires |data| <= 0x2_0000 && n <= Sum(data)
    ensures n % U32_LIMIT == n
  {
    SumIsSmall(data);
  }

  /** The first loop, on 32-bit numbers: exact for every message of up to 128 KiB. */
  method AddWords(data: bytes) returns (sum: nat)
    ensures |data| <= 0x2_0000 ==> sum == Sum(data)
  {
    var i: nat := 0;
    sum := 0;
    assert data[..0] == [];
    EmptySum();
    hide Sum, Word, U32_LIMIT;
    while i + 1 < |data|
      invariant i % 2 == 0 && i <= |data|
      invariant |data| <= 0x2_0000 ==> sum == Sum(data[..i])
    {
      SumGrows(data, i);
      if |data| <= 0x2_0000 {
        SumFits(data, sum + Word(data[i], data[i + 1]));
      }
      sum := (sum + Word(data[i], data[i + 1])) % U32_LIMIT;
      i := i + 2;
    }
    SumEnds(data, i);
    if i < |data| {
      if |data| <= 0x2_0000 {
        SumFits(data, sum + Word(data[i], 0));
      }
      sum := (sum + Word(data[i], 0)) % U32_LIMIT;
    }
  }

  method InternetChecksum(data: bytes) returns (r: nat)
    ensures r < 0x1_0000
    ensures |data| <= 0x2_0000 ==> r == Checksum(data)
  {
    var sum := AddWords(data);
    ghost var all := sum;
    while sum / 0x1_0000 != 0
      invariant Fold(sum) == Fold(all)
      decreases sum
    {
      sum := sum % 0x1_0000 + sum / 0x1_0000;
    }
    r := 0xFFFF - sum;
  }

  // ---------------------------------------------------------------- the ICMP message

  predicate IsAddress(a: bytes) {
    |a| == 4
  }

  function Ipv4Header(src: bytes, dst: bytes, protocol: byte, payloadLen: nat): (h: bytes)
    requires IsAddress(src) && IsAddress(dst) && payloadLen < 0xFF00
    ensures |h| == IPV4_HEADER_LEN
  {
    [0x45, 0] + WordBytes(IPV4_HEADER_LEN + payloadLen) + [0, 0, 0, 0, 64, protocol, 0, 0] + src + dst
  }

  datatype Flow = Flow(src: bytes, dst: bytes, srcPort: nat, dstPort: nat)

  predicate IsFlow(f: Flow) {
    IsAddress(f.src) && IsAddress(f.dst) && f.srcPort < 0x1_0000 && f.dstPort < 0x1_0000
  }

  /** The headers of the datagram that was too large. */
  function Inner(f: Flow): (b: bytes)
    requires IsFlow(f)
    ensures |b| == 28
  {
    Ipv4Header(f.src, f.dst, 17, UDP_HEADER_LEN) + WordBytes(f.srcPort) + WordBytes(f.dstPort) + [0, 0, 0, 0]
  }

  /** The message with its checksum field still zero. */
  function IcmpDraft(f: Flow, mtu: nat): (b: bytes)
    requires IsFlow(f) && mtu < 0x1_0000
    ensures |b| == 36
  {
    [3, 4, 0, 0, 0, 0] + WordBytes(mtu) + Inner(f)
  }

  function Icmp(f: Flow, mtu: nat): (b: bytes)
    requires IsFlow(f) && mtu < 0x1_0000
    ensures |b| == 36
  {
    Stored(IcmpDraft(f, mtu), 2, Checksum(IcmpDraft(f, mtu)))
  }

  function OuterHeader(f: Flow): (h: bytes)
    requires IsFlow(f)
    ensures |h| == IPV4_HEADER_LEN
  {
    Ipv4Header(f.dst, f.src, 1, 36)
  }

  /** The packet. The header checksum goes to bytes 2 and 3, over the total length. */
  function Packet(f: Flow, mtu: nat): bytes
    requires IsFlow(f) && mtu < 0x1_0000
  {
    Stored(OuterHeader(f) + Icmp(f, mtu), 2, Checksum(OuterHeader(f)))
  }

  function ParseFragNeeded(p: bytes): Option<nat> {
    if |p| < IPV4_HEADER_LEN + ICMP_HEADER_LEN || p[0] / 16 != 4 then None
    else
      var ihl: nat := (p[0] % 16) as nat * 4;
      if ihl < IPV4_HEADER_LEN || |p| < ihl + ICMP_HEADER_LEN then None
      else if p[ihl] != 3 || p[ihl + 1] != 4 then None
      else
        var mtu := Word(p[ihl + 6], p[ihl + 7]);
        if mtu < MIN_TUN_MTU then None else Some(mtu)
  }

  lemma PacketSplits(f: Flow, mtu: nat)
    requires IsFlow(f) && mtu < 0x1_0000
    ensures var p := Packet(f, mtu);
            |p| == 56 && p[0] == 0x45 && p[20..] == Icmp(f, mtu) && p[..20] == Stored(OuterHeader(f), 2, Checksum(OuterHeader(f)))
  {
    hide Icmp, Checksum;
    assert OuterHeader(f)[0] == 0x45;
    hide OuterHeader;
    var h, b, c := OuterHeader(f), Icmp(f, mtu), Checksum(OuterHeader(f));
    assert (h + b)[..2] == h[..2] && (h + b)[4..] == h[4..] + b;
  }

  lemma IcmpFields(f: Flow, mtu: nat)
    requires IsFlow(f) && mtu < 0x1_0000
    ensures var b, m := Icmp(f, mtu), WordBytes(mtu); b[0] == 3 && b[1] == 4 && b[6] == m[0] && b[7] == m[1]
  {
    hide Checksum, Inner;
  }

  /** Every built message verifies. */
  lemma IcmpVerifies(f: Flow, mtu: nat)
    requires IsFlow(f) && mtu < 0x1_0000
    ensures Checksum(Packet(f, mtu)[IPV4_HEADER_LEN..]) == 0
  {
    PacketSplits(f, mtu);
    StoredChecksumVerifies(IcmpDraft(f, mtu), 2);
    hide Checksum;
  }

  /** A packet of version 4 with a header of `n` bytes, then type 3 and code 4, and the MTU in
      bytes 6 and 7 behind the header. */
  predicate ReportsBehind(p: bytes, n: nat, mtu: nat) {
    && n % 4 == 0 && 20 <= n <= 60 && n + 8 <= |p| && p[0] as nat == 64 + n / 4
    && p[n] == 3 && p[n + 1] == 4 && 256 * p[n + 6] as nat + p[n + 7] as nat == mtu
  }

  lemma HeaderLength(b: byte, n: nat)
    requires n % 4 == 0 && 20 <= n <= 60
    ensures b as nat == 64 + n / 4 <==> b / 16 == 4 && (b % 16) as nat * 4 == n
  {
  }

  lemma ReportIsRead(p: bytes, n: nat, mtu: nat)
    requires ReportsBehind(p, n, mtu)
    ensures ParseFragNeeded(p) == if mtu >= 576 then Some(mtu) else None
  {
    HeaderLength(p[0], n);
  }

  lemma ReadIsReport(p: bytes, mtu: nat) returns (n: nat)
    requires ParseFragNeeded(p) == Some(mtu)
    ensures ReportsBehind(p, n, mtu) && mtu >= 576
  {
    n := (p[0] % 16) as nat * 4;
    HeaderLength(p[0], n);
  }

  /** An MTU is read off a packet exactly when the packet reports it behind some header and it
      is at least 576. */
  lemma FragNeededExactly(p: bytes, mtu: nat)
    ensures ParseFragNeeded(p) == Some(mtu) <==> mtu >= 576 && exists n: nat :: ReportsBehind(p, n, mtu)
  {
    hide ParseFragNeeded, ReportsBehind;
    if n: nat :| ReportsBehind(p, n, mtu) {
      ReportIsRead(p, n, mtu);
    }
    if ParseFragNeeded(p) == Some(mtu) {
      var n := ReadIsReport(p, mtu);
    }
  }

  /** The reader gets the MTU back from the built packet exactly when it is at least 576. */
  lemma MtuReadsBack(f: Flow, mtu: nat)
    requires IsFlow(f) && mtu < 0x1_0000
    ensures ParseFragNeeded(Packet(f, mtu)) == if mtu >= MIN_TUN_MTU then Some(mtu) else None
  {
    PacketSplits(f, mtu);
    IcmpFields(f, mtu);
    hide Packet, Icmp, Checksum;
    var p := Packet(f, mtu);
    assert forall i :: 0 <= i < 36 ==> p[20 + i] == p[20..][i];
  }

  lemma MultipleIsNot(n: nat, f: nat)
    requires f < 0x1_0000 && f % 0xFFFF == n % 0xFFFF && n >= 56
    ensures (n - 56 + 0xFFFF - f) % 0xFFFF != 0
  {
  }

  /** The outer header never verifies: its checksum replaced the total length, 56. */
  lemma OuterHeaderNeverVerifies(f: Flow, mtu: nat)
    requires IsFlow(f) && mtu < 0x1_0000
    ensures Checksum(Packet(f, mtu)[..IPV4_HEADER_LEN]) != 0
  {
    var h := OuterHeader(f);
    PacketSplits(f, mtu);
    assert WordBytes(56) == [0, 56];
    assert h[2] == 0 && h[3] == 56;
    SumOfStored(h, 2, Checksum(h));
    FoldKeepsResidue(Sum(h));
    Verifies(Stored(h, 2, Checksum(h)));
    SumGrows(h, 2);
    MultipleIsNot(Sum(h), Fold(Sum(h)));
  }

  // ---------------------------------------------------------------- building in place

  function Zeros(n: nat): (z: bytes)
    ensures |z| == n && forall i :: 0 <= i < n ==> z[i] == 0
  {
    seq(n, _ => 0)
  }

  /** `data` written at `at` into a buffer that holds `p` and is zero from there on. */
  function Filled(p: bytes, at: nat, data: bytes): (q: bytes)
    requires |p| <= at
    ensures |q| == at + |data|
  {
    p + Zeros(at - |p|) + data
  }

  method CopyTo(buf: array<byte>, at: nat, data: bytes)
    requires at + |data| <= buf.Length
    modifies buf
    ensures buf[..] == old(buf[..])[..at] + data + old(buf[..])[at + |data|..]
  {
    for i := 0 to |data|
      invariant forall k :: 0 <= k < buf.Length ==> buf[k] == if at <= k < at + i then data[k - at] else old(buf[k])
    {
      buf[at + i] := data[i];
    }
  }

  lemma FillsZeros(p: bytes, n: nat, at: nat, data: bytes)
    requires |p| <= at && at + |data| <= n
    ensures var s := p + Zeros(n - |p|);
            s[..at] + data + s[at + |data|..] == Filled(p, at, data) + Zeros(n - at - |data|)
  {
    var s := p + Zeros(n - |p|);
    assert s[..at] == p + Zeros(at - |p|);
    assert s[at + |data|..] == Zeros(n - at - |data|);
  }

  /** Write behind everything written so far. */
  method Fill(buf: array<byte>, at: nat, data: bytes, ghost p: bytes)
    requires |p| <= at && at + |data| <= buf.Length && buf[..] == p + Zeros(buf.Length - |p|)
    modifies buf
    ensures buf[..] == Filled(p, at, data) + Zeros(buf.Length - at - |data|)
  {
    FillsZeros(p, buf.Length, at, data);
    hide Filled;
    CopyTo(buf, at, data);
  }

  method ZeroBuffer(n: nat) returns (buf: array<byte>)
    ensures fresh(buf) && buf.Length == n && buf[..] == Zeros(n)
  {
    buf := new byte[n](_ => 0);
  }

  function HeaderFill(src: bytes, dst: bytes, protocol: byte, payloadLen: nat): bytes
    requires IsAddress(src) && IsAddress(dst) && payloadLen < 0xFF00
  {
    var length := WordBytes(IPV4_HEADER_LEN + payloadLen);
    Filled(Filled(Filled(Filled(Filled(Filled([], 0, [0x45]), 2, length), 8, [64]), 9, [protocol]), 12, src), 16, dst)
  }

  lemma FillHere(p: bytes, data: bytes)
    ensures Filled(p, |p|, data) == p + data
  {
    assert p + Zeros(0) == p;
  }

  /** A gap in the writing is a run of zeros. */
  lemma FillGap(p: bytes, gap: bytes, data: bytes)
    requires gap == Zeros(|gap|)
    ensures Filled(p, |p| + |gap|, data) == p + gap + data
  {
  }

  lemma SmallZeros()
    ensures Zeros(1) == [0] && Zeros(2) == [0, 0] && Zeros(4) == [0, 0, 0, 0]
  {
  }

  lemma HeaderShape(w: bytes, protocol: byte, src: bytes, dst: bytes)
    ensures [0x45] + [0] + w + [0, 0, 0, 0] + [64] + [protocol] + [0, 0] + src + dst ==
            [0x45, 0] + w + [0, 0, 0, 0, 64, protocol, 0, 0] + src + dst
  {
    assert [0x45] + [0] == [0x45, 0];
    var a := [0x45, 0] + w;
    assert a + [0, 0, 0, 0] + [64] + [protocol] + [0, 0] == a + [0, 0, 0, 0, 64, protocol, 0, 0];
  }

  lemma HeaderIsFilled(src: bytes, dst: bytes, protocol: byte, payloadLen: nat)
    requires IsAddress(src) && IsAddress(dst) && payloadLen < 0xFF00
    ensures HeaderFill(src, dst, protocol, payloadLen) == Ipv4Header(src, dst, protocol, payloadLen)
  {
    var w := WordBytes(IPV4_HEADER_LEN + payloadLen);
    SmallZeros();
    HeaderShape(w, protocol, src, dst);
    hide Filled, Zeros;
    var p1 := [] + [0x45];
    var p2 := p1 + [0] + w;
    var p3 := p2 + [0, 0, 0, 0] + [64];
    var p4 := p3 + [protocol];
    var p5 := p4 + [0, 0] + src;
    FillHere([], [0x45]);
    FillGap(p1, [0], w);
    FillGap(p2, [0, 0, 0, 0], [64]);
    FillHere(p3, [protocol]);
    FillGap(p4, [0, 0], src);
    FillHere(p5, dst);
    assert p1 == [0x45];
  }

  method WriteIpv4Header(buf: array<byte>, src: bytes, dst: bytes, protocol: byte, payloadLen: nat)
    requires buf.Length >= IPV4_HEADER_LEN && IsAddress(src) && IsAddress(dst) && payloadLen < 0xFF00
    requires buf[..] == Zeros(buf.Length)
    modifies buf
    ensures buf[..] == Ipv4Header(src, dst, protocol, payloadLen) + Zeros(buf.Length - IPV4_HEADER_LEN)
  {
    HeaderIsFilled(src, dst, protocol, payloadLen);
    assert [] + Zeros(buf.Length) == Zeros(buf.Length);
    var length := WordBytes(IPV4_HEADER_LEN + payloadLen);
    hide Filled, Ipv4Header, Zeros;
    ghost var p1 := Filled([], 0, [0x45]);
    ghost var p2 := Filled(p1, 2, length);
    ghost var p3 := Filled(p2, 8, [64]);
    ghost var p4 := Filled(p3, 9, [protocol]);
    ghost var p5 := Filled(p4, 12, src);
    Fill(buf, 0, [0x45], []);
    Fill(buf, 2, length, p1);
    Fill(buf, 8, [64], p2);
    Fill(buf, 9, [protocol], p3);
    Fill(buf, 12, src, p4);
    Fill(buf, 16, dst, p5);
  }

  lemma InnerIsFilled(f: Flow)
    requires IsFlow(f)
    ensures var h := Ipv4Header(f.src, f.dst, 17, UDP_HEADER_LEN);
            Filled(Filled(h, 20, WordBytes(f.srcPort)), 22, WordBytes(f.dstPort)) + Zeros(4) == Inner(f)
  {
    hide Ipv4Header;
    var h := Ipv4Header(f.src, f.dst, 17, UDP_HEADER_LEN);
    FillHere(h, WordBytes(f.srcPort));
    FillHere(h + WordBytes(f.srcPort), WordBytes(f.dstPort));
    assert Zeros(4) == [0, 0, 0, 0];
  }

  method BuildInner(f: Flow) returns (inner: bytes)
    requires IsFlow(f)
    ensures inner == Inner(f)
  {
    InnerIsFilled(f);
    hide Ipv4Header, Inner, Filled, Zeros;
    ghost var h := Ipv4Header(f.src, f.dst, 17, UDP_HEADER_LEN);
    var buf := ZeroBuffer(28);
    WriteIpv4Header(buf, f.src, f.dst, 17, UDP_HEADER_LEN);
    Fill(buf, 20, WordBytes(f.srcPort), h);
    Fill(buf, 22, WordBytes(f.dstPort), Filled(h, 20, WordBytes(f.srcPort)));
    inner := buf[..];
  }

  lemma DraftIsFilled(f: Flow, mtu: nat)
    requires IsFlow(f) && mtu < 0x1_0000
    ensures Filled(Filled(Filled(Filled([], 0, [3]), 1, [4]), 6, WordBytes(mtu)), 8, Inner(f)) + Zeros(0) == IcmpDraft(f, mtu)
  {
    hide Inner;
    FillHere([], [3]);
    FillHere([3], [4]);
    assert [] + [3] == [3] && [3] + [4] == [3, 4];
    var p := [3, 4, 0, 0, 0, 0] + WordBytes(mtu);
    SmallZeros();
    FillGap([3, 4], [0, 0, 0, 0], WordBytes(mtu));
    assert [3, 4] + [0, 0, 0, 0] == [3, 4, 0, 0, 0, 0];
    FillHere(p, Inner(f));
  }

  method BuildIcmp(f: Flow, mtu: nat) returns (message: bytes)
    requires IsFlow(f) && mtu < 0x1_0000
    ensures message == Icmp(f, mtu)
  {
    DraftIsFilled(f, mtu);
    assert [] + Zeros(36) == Zeros(36);
    hide Checksum, Inner, IcmpDraft, Filled, Zeros;
    var inner := BuildInner(f);
    ghost var p1 := Filled([], 0, [3]);
    ghost var p2 := Filled(p1, 1, [4]);
    ghost var p3 := Filled(p2, 6, WordBytes(mtu));
    var icmp := ZeroBuffer(36);
    Fill(icmp, 0, [3], []);
    Fill(icmp, 1, [4], p1);
    Fill(icmp, 6, WordBytes(mtu), p2);
    Fill(icmp, 8, inner, p3);
    assert icmp[..] == IcmpDraft(f, mtu);
    var checksum := InternetChecksum(icmp[..]);
    CopyTo(icmp, 2, WordBytes(checksum));
    message := icmp[..];
  }

  lemma PacketIsFilled(f: Flow, message: bytes)
    requires IsFlow(f) && |message| == 36
    ensures Filled(OuterHeader(f), 20, message) + Zeros(0) == OuterHeader(f) + message
  {
    hide OuterHeader;
    FillHere(OuterHeader(f), message);
  }

  /** The builder, writing into a zeroed buffer in place. */
  method BuildFragNeeded(f: Flow, mtu: nat) returns (packet: bytes)
    requires IsFlow(f) && mtu < 0x1_0000
    ensures packet == Packet(f, mtu)
  {
    var message := BuildIcmp(f, mtu);
    PacketIsFilled(f, message);
    hide Checksum, Ipv4Header, Icmp, Filled, Zeros;
    var buf := ZeroBuffer(56);
    WriteIpv4Header(buf, f.dst, f.src, 1, 36);
    assert Ipv4Header(f.dst, f.src, 1, 36) == OuterHeader(f);
    hide OuterHeader;
    Fill(buf, 20, message, OuterHeader(f));
    assert buf[..IPV4_HEADER_LEN] == buf[..][..IPV4_HEADER_LEN] == OuterHeader(f);
    var checksum := InternetChecksum(buf[..IPV4_HEADER_LEN]);
    CopyTo(buf, 2, WordBytes(checksum));
    packet := buf[..];
  }

  /** An odd message counts as if a zero byte followed. */
  lemma {:induction false} OddIsPadded(s: bytes)
    requires |s| % 2 == 1
    ensures Sum(s) == Sum(s + [0])
  {
    if |s| > 1 {
      OddIsPadded(s[2..]);
      assert (s + [0])[2..] == s[2..] + [0];
    } else {
      assert (s + [0])[2..] == [];
    }
  }

  lemma HeaderFields(src: bytes, dst: bytes, protocol: byte, payloadLen: nat)
    requires IsAddress(src) && IsAddress(dst) && payloadLen < 0xFF00
    ensures var h := Ipv4Header(src, dst, protocol, payloadLen);
            && h[0] == 0x45 && h[1] == 0 && 256 * h[2] as nat + h[3] as nat == 20 + payloadLen
            && h[4..8] == [0, 0, 0, 0] && h[8] == 64 && h[9] == protocol && h[10] == 0 && h[11] == 0
            && h[12..16] == src && h[16..20] == dst
  {
    var w := WordBytes(20 + payloadLen);
    WordsAreBigEndian(w[0], w[1]);
    hide WordBytes, Word;
  }

  lemma OuterFields(f: Flow)
    requires IsFlow(f)
    ensures var h := Stored(OuterHeader(f), 2, Checksum(OuterHeader(f)));
            h[0] == 0x45 && h[8] == 64 && h[9] == 1 && h[12..16] == f.dst && h[16..20] == f.src
  {
    HeaderFields(f.dst, f.src, 1, 36);
    hide Ipv4Header, Checksum;
    var h := OuterHeader(f);
    var t := Stored(h, 2, Checksum(h));
    assert t[4..] == h[4..];
    assert forall i :: 4 <= i < 20 ==> t[i] == t[4..][i - 4] && h[i] == h[4..][i - 4];
    assert t[12..16] == t[4..][8..12] && h[12..16] == h[4..][8..12];
    assert t[16..20] == t[4..][12..16] && h[16..20] == h[4..][12..16];
  }

  lemma InnerFields(f: Flow)
    requires IsFlow(f)
    ensures var b := Inner(f);
            && b[0] == 0x45 && b[9] == 17 && b[12..16] == f.src && b[16..20] == f.dst
            && 256 * b[20] as nat + b[21] as nat == f.srcPort && 256 * b[22] as nat + b[23] as nat == f.dstPort
  {
    HeaderFields(f.src, f.dst, 17, UDP_HEADER_LEN);
    var s, d := WordBytes(f.srcPort), WordBytes(f.dstPort);
    WordsAreBigEndian(s[0], s[1]);
    WordsAreBigEndian(d[0], d[1]);
    hide Ipv4Header, WordBytes, Word;
    var h, b := Ipv4Header(f.src, f.dst, 17, UDP_HEADER_LEN), Inner(f);
    assert b[..20] == h;
    assert b[12..16] == b[..20][12..16] && b[16..20] == b[..20][16..20];
  }

  lemma IcmpBytes(f: Flow, mtu: nat)
    requires IsFlow(f) && mtu < 0x1_0000
    ensures var q := Icmp(f, mtu);
            && q[0] == 3 && q[1] == 4 && 256 * q[6] as nat + q[7] as nat == mtu
            && q[8] == 0x45 && q[17] == 17 && q[20..24] == f.src && q[24..28] == f.dst
            && 256 * q[28] as nat + q[29] as nat == f.srcPort && 256 * q[30] as nat + q[31] as nat == f.dstPort
  {
    IcmpFields(f, mtu);
    InnerFields(f);
    var m := WordBytes(mtu);
    WordsAreBigEndian(m[0], m[1]);
    hide Checksum, Inner, WordBytes, Word;
    var q := Icmp(f, mtu);
    assert q[8..] == Inner(f);
    assert forall i :: 8 <= i < 36 ==> q[i] == q[8..][i - 8];
    assert q[20..24] == q[8..][12..16] && q[24..28] == q[8..][16..20];
  }

  /** The packet by its fields: from the datagram's destination back to its source, ICMP type 3
      code 4 with the MTU, and the headers of the datagram itself. */
  lemma PacketFields(f: Flow, mtu: nat)
    requires IsFlow(f) && mtu < 0x1_0000
    ensures var p := Packet(f, mtu);
            && |p| == 56 && p[0] == 0x45 && p[8] == 64 && p[9] == 1 && p[12..16] == f.dst && p[16..20] == f.src
            && p[20] == 3 && p[21] == 4 && 256 * p[26] as nat + p[27] as nat == mtu
            && p[28] == 0x45 && p[37] == 17 && p[40..44] == f.src && p[44..48] == f.dst
            && 256 * p[48] as nat + p[49] as nat == f.srcPort && 256 * p[50] as nat + p[51] as nat == f.dstPort
  {
    PacketSplits(f, mtu);
    OuterFields(f);
    IcmpBytes(f, mtu);
    hide Packet, Icmp, OuterHeader, Checksum, Stored;
    var p, q := Packet(f, mtu), Icmp(f, mtu);
    assert forall i :: 0 <= i < 36 ==> p[20 + i] == p[20..][i];
    assert p[40..44] == p[20..][20..24] && p[44..48] == p[20..][24..28];
    assert p[12..16] == p[..20][12..16] && p[16..20] == p[..20][16..20];
    assert forall i :: 0 <= i < 20 ==> p[i] == p[..20][i];
  }
}
