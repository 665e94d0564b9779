/** The addons of a VLESS request: a hand-written protobuf reader. */
module Addons {
  import opened Bytes

  const MAX_NESTED: nat := 128
  const MAX_SEED: nat := 64
  const MAX_SKIP: nat := 512
  const U64_LIMIT: nat := 0x1_0000_0000_0000_0000
  const U32_LIMIT: nat := 0x1_0000_0000

  datatype AddonsError =
    | Truncated
    | InvalidWireType(wireType: nat)
    | FlowTooLarge(size: nat)
    | SeedTooLarge(size: nat)

  datatype Addons = Addons(flow: Option<bytes>, seed: Option<bytes>)

  const NOTHING := Addons(None, None)

  // ---------------------------------------------------------------- varints

  /** Value and length of the varint `s` starts with, when `k` of its bytes are already
      read; at most ten bytes in all. */
  function Varint(s: bytes, k: nat): (r: Result<(nat, nat), AddonsError>)
    ensures r.Ok? ==> 1 <= r.value.1 <= |s|
    ensures r.Err? ==> r.error == Truncated
  {
    if s == [] then Err(Truncated)
    else if s[0] < 128 then Ok((s[0], 1))
    else if k >= 9 then Err(Truncated)
    else
      match Varint(s[1..], k + 1)
      case Err(e) => Err(e)
      case Ok((v, n)) => Ok((s[0] - 128 + 128 * v, n + 1))
  }

  /** The low 64 bits. */
  function Cut(n: nat): nat {
    n % U64_LIMIT
  }

  /** The varint as a 64-bit number. */
  function ReadVarint(s: bytes): (r: Result<(nat, nat), AddonsError>)
    ensures r.Ok? ==> 1 <= r.value.1 <= |s|
    ensures r.Err? ==> r.error == Truncated
  {
    match Varint(s, 0)
    case Err(e) => Err(e)
    case Ok((v, n)) => Ok((Cut(v), n))
  }

  lemma {:induction false} VarintStands(s: bytes, k: nat, t: bytes)
    requires Varint(s, k).Ok?
    ensures Varint(s + t, k) == Varint(s, k)
  {
    if s[0] >= 128 {
      VarintStands(s[1..], k + 1, t);
      assert (s + t)[1..] == s[1..] + t;
    }
  }

  // ---------------------------------------------------------------- fields

  function ReadDelimited(s: bytes, max: nat): (r: Result<(bytes, nat), AddonsError>)
    ensures r.Ok? ==> |r.value.0| <= max && |r.value.0| < r.value.1 <= |s|
  {
    match ReadVarint(s)
    case Err(e) => Err(e)
    case Ok((size, n)) =>
      if size > max then Err(if max == MAX_SEED then SeedTooLarge(size) else FlowTooLarge(size))
      else if n + size > |s| then Err(Truncated)
      else Ok((s[n..n + size], n + size))
  }

  /** A field the reader keeps, by its number, or one it skips. */
  datatype Field = Kept(number: nat, payload: bytes) | Skipped

  /** Size limit of each field the reader keeps. */
  type Schema = map<nat, nat>

  const ADDONS: Schema := map[1 := MAX_NESTED, 2 := MAX_SEED]
  const FLOW: Schema := map[1 := MAX_NESTED]

  /** The field `s` starts with and its length, which for fixed-size fields may lie
      beyond the end of `s`. */
  function ReadField(s: bytes, keep: Schema, skipMax: nat): (r: Result<(Field, nat), AddonsError>)
    ensures r.Ok? ==> r.value.1 > 0
  {
    match ReadVarint(s)
    case Err(e) => Err(e)
    case Ok((v, n)) =>
      var number, wire, t := (v / 8) % U32_LIMIT, v % 8, s[n..];
      if wire == 2 then
        match ReadDelimited(t, if number in keep then keep[number] else skipMax)
        case Err(e) => Err(e)
        case Ok((payload, m)) => Ok((if number in keep then Kept(number, payload) else Skipped, n + m))
      else if wire == 0 then
        match ReadVarint(t)
        case Err(e) => Err(e)
        case Ok((_, m)) => Ok((Skipped, n + m))
      else if wire == 1 then Ok((Skipped, n + 8))
      else if wire == 5 then Ok((Skipped, n + 4))
      else Err(InvalidWireType(wire))
  }

  lemma DelimitedStands(s: bytes, max: nat, t: bytes)
    requires ReadDelimited(s, max).Ok?
    ensures ReadDelimited(s + t, max) == ReadDelimited(s, max)
  {
    VarintStands(s, 0, t);
    var (size, n) := ReadVarint(s).value;
    assert (s + t)[n..n + size] == s[n..n + size];
  }

  lemma ReadVarintStands(s: bytes, t: bytes)
    requires ReadVarint(s).Ok?
    ensures ReadVarint(s + t) == ReadVarint(s) && ReadVarint(s).value.1 <= |s|
  {
    VarintStands(s, 0, t);
  }

  /** A field that was read stays the same whatever follows. */
  lemma FieldStands(s: bytes, keep: Schema, skipMax: nat, t: bytes)
    requires ReadField(s, keep, skipMax).Ok?
    ensures ReadField(s + t, keep, skipMax) == ReadField(s, keep, skipMax)
  {
    hide ReadVarint, ReadDelimited;
    ReadVarintStands(s, t);
    var (v, n) := ReadVarint(s).value;
    assert (s + t)[n..] == s[n..] + t;
    if v % 8 == 2 {
      var number := (v / 8) % U32_LIMIT;
      DelimitedStands(s[n..], if number in keep then keep[number] else skipMax, t);
    } else if v % 8 == 0 {
      ReadVarintStands(s[n..], t);
    }
  }

  // ---------------------------------------------------------------- messages

  function After(s: bytes, n: nat): bytes {
    if n < |s| then s[n..] else []
  }

  /** The nested flow message: its type text, the last one if there are several. */
  function ParseFlow(s: bytes, flow: bytes): Result<bytes, AddonsError>
    decreases |s|
  {
    if s == [] then Ok(flow)
    else
      match ReadField(s, FLOW, MAX_NESTED)
      case Err(e) => Err(e)
      case Ok((Skipped, n)) => ParseFlow(After(s, n), flow)
      case Ok((Kept(_, text), n)) => if Utf8(text) then ParseFlow(After(s, n), text) else Err(Truncated)
  }

  /** What one field changes. */
  function Put(a: Addons, f: Field): Result<Addons, AddonsError> {
    match f
    case Skipped => Ok(a)
    case Kept(number, payload) =>
      if number == 1 then
        match ParseFlow(payload, [])
        case Err(e) => Err(e)
        case Ok(flow) => Ok(a.(flow := Some(flow)))
      else Ok(a.(seed := Some(payload)))
  }

  function ParseInto(s: bytes, a: Addons): Result<Addons, AddonsError>
    decreases |s|
  {
    if s == [] then Ok(a)
    else
      match ReadField(s, ADDONS, MAX_SKIP)
      case Err(e) => Err(e)
      case Ok((f, n)) =>
        match Put(a, f)
        case Err(e) => Err(e)
        case Ok(a') => ParseInto(After(s, n), a')
  }

  function ParseAddons(s: bytes): Result<Addons, AddonsError> {
    ParseInto(s, NOTHING)
  }

  // ---------------------------------------------------------------- the loops

  function Power128(k: nat): nat {
    if k == 0 then 1 else Power128(k - 1) * 128
  }

  /** `v`, shifted past `k` bytes of a varint. */
  function Shifted(k: nat, v: nat): nat {
    Power128(k) * v
  }

  /** The whole varint, when its first `k` bytes have added up to `sum`. */
  function Resume(sum: nat, k: nat, rest: Result<(nat, nat), AddonsError>): Result<(nat, nat), AddonsError> {
    match rest
    case Err(e) => Err(e)
    case Ok((v, n)) => Ok((sum + Shifted(k, v), k + n))
  }

  /** The seven bits of a varint's byte `k`, in their place. */
  function Place(b: byte, k: nat): nat {
    Shifted(k, b % 128)
  }

  lemma Distribute(s: nat, a: nat, v: nat)
    ensures s * (a + 128 * v) == s * a + s * 128 * v
  {
  }

  lemma ResumeSum(k: nat, a: nat, v: nat)
    ensures Shifted(k, a + 128 * v) == Shifted(k, a) + Shifted(k + 1, v)
  {
    Distribute(Power128(k), a, v);
  }

  /** One more byte of a varint read. */
  lemma ResumeSteps(sum: nat, k: nat, s: bytes)
    requires s != []
    ensures Resume(sum, k, Varint(s, k)) ==
            if s[0] < 128 then Ok((sum + Place(s[0], k), k + 1))
            else if k >= 9 then Err(Truncated)
            else Resume(sum + Place(s[0], k), k + 1, Varint(s[1..], k + 1))
  {
    hide Shifted;
    if s[0] >= 128 && k < 9 && Varint(s[1..], k + 1).Ok? {
      ResumeSum(k, s[0] - 128, Varint(s[1..], k + 1).value.0);
    }
  }

  lemma CutSum(sum: nat, p: nat)
    ensures Cut(Cut(sum) + p) == Cut(sum + p)
  {
  }

  /** Up to `pos` the bytes from `offset` on have added up to `sum`. */
  ghost predicate Progress(data: bytes, offset: nat, pos: nat, sum: nat) {
    && offset <= pos <= |data|
    && Resume(sum, pos - offset, Varint(data[pos..], pos - offset)) == Varint(data[offset..], 0)
  }

  lemma ProgressStarts(data: bytes, offset: nat)
    requires offset <= |data|
    ensures Progress(data, offset, offset, 0) && Cut(0) == 0
  {
  }

  lemma ProgressSteps(data: bytes, offset: nat, pos: nat, sum: nat)
    requires Progress(data, offset, pos, sum) && pos < |data|
    ensures var b, k, whole := data[pos], pos - offset, Varint(data[offset..], 0);
            if b < 128 then whole == Ok((sum + Place(b, k), k + 1))
            else if k >= 9 then whole == Err(Truncated)
            else Progress(data, offset, pos + 1, sum + Place(b, k))
  {
    ResumeSteps(sum, pos - offset, data[pos..]);
    hide Varint, Resume, Place;
    assert data[pos..][1..] == data[pos + 1..];
  }

  lemma ProgressEnds(data: bytes, offset: nat, sum: nat)
    requires Progress(data, offset, |data|, sum)
    ensures Varint(data[offset..], 0) == Err(Truncated)
  {
  }

  /** The accumulating loop on 64-bit numbers. The bits it combines never overlap, so `|=`
      is addition. */
  method ReadVarintLoop(data: bytes, offset: nat) returns (r: Result<(nat, nat), AddonsError>)
    requires offset <= |data|
    ensures match ReadVarint(data[offset..])
            case Err(e) => r == Err(e)
            case Ok((v, n)) => r == Ok((v, offset + n))
  {
    hide Place, Cut, Varint, Progress;
    var result: nat, shift: nat, pos := 0, 0, offset;
    ghost var sum: nat := 0;
    ProgressStarts(data, offset);
    while pos < |data|
      invariant offset <= pos <= |data| && shift == 7 * (pos - offset) <= 63
      invariant result == Cut(sum) && Progress(data, offset, pos, sum)
    {
      var b := data[pos];
      var p := Place(b, pos - offset);
      ProgressSteps(data, offset, pos, sum);
      CutSum(sum, p);
      result := Cut(result + p);
      sum := sum + p;
      pos := pos + 1;
      if b < 128 {
        return Ok((result, pos));
      }
      shift := shift + 7;
      if shift > 63 {
        return Err(Truncated);
      }
    }
    ProgressEnds(data, offset, sum);
    r := Err(Truncated);
  }

  lemma AfterAt(s: bytes, i: nat)
    ensures i < |s| ==> After(s, i) == s[i..] && After(s, i) != []
    ensures i >= |s| ==> After(s, i) == []
    ensures After(s, 0) == s
  {
  }

  lemma AfterAfter(s: bytes, i: nat, n: nat)
    ensures After(After(s, i), n) == After(s, i + n)
  {
  }

  /** One turn of the flow loop. */
  lemma FlowSteps(s: bytes, flow: bytes)
    ensures var f := ReadField(s, FLOW, MAX_NESTED);
            ParseFlow(s, flow) ==
            if s == [] then Ok(flow)
            else if f.Err? then Err(f.error)
            else if f.value.0.Skipped? then ParseFlow(After(s, f.value.1), flow)
            else if Utf8(f.value.0.payload) then ParseFlow(After(s, f.value.1), f.value.0.payload)
            else Err(Truncated)
  {
    hide ReadField, Utf8;
  }

  method ParseFlowLoop(data: bytes) returns (r: Result<bytes, AddonsError>)
    ensures r == ParseFlow(data, [])
  {
    hide ReadField, Utf8, ParseFlow, After, FLOW;
    var flowType, offset := [], 0;
    AfterAt(data, 0);
    while offset < |data|
      invariant ParseFlow(After(data, offset), flowType) == ParseFlow(data, [])
      decreases |data| - offset
    {
      AfterAt(data, offset);
      FlowSteps(After(data, offset), flowType);
      var field := ReadField(data[offset..], FLOW, MAX_NESTED);
      if field.Err? {
        return Err(field.error);
      }
      var (f, n) := field.value;
      AfterAfter(data, offset, n);
      offset := offset + n;
      if f.Kept? {
        if !Utf8(f.payload) {
          return Err(Truncated);
        }
        flowType := f.payload;
      }
    }
    AfterAt(data, offset);
    FlowSteps([], flowType);
    r := Ok(flowType);
  }

  /** One turn of the addons loop. */
  lemma ParseSteps(s: bytes, a: Addons)
    ensures var f := ReadField(s, ADDONS, MAX_SKIP);
            ParseInto(s, a) ==
            if s == [] then Ok(a)
            else if f.Err? then Err(f.error)
            else
              var put := Put(a, f.value.0);
              if put.Err? then Err(put.error) else ParseInto(After(s, f.value.1), put.value)
  {
    hide ReadField, Put;
  }

  method ParseAddonsLoop(data: bytes) returns (r: Result<Addons, AddonsError>)
    ensures r == ParseAddons(data)
  {
    hide ReadField, Put, ParseInto, After, ADDONS, NOTHING;
    ParseSteps(data, NOTHING);
    if data == [] {
      return Ok(NOTHING);
    }
    var addons, offset := NOTHING, 0;
    AfterAt(data, 0);
    while offset < |data|
      invariant ParseInto(After(data, offset), addons) == ParseInto(data, NOTHING)
      decreases |data| - offset
    {
      AfterAt(data, offset);
      ParseSteps(After(data, offset), addons);
      var field := ReadField(data[offset..], ADDONS, MAX_SKIP);
      if field.Err? {
        return Err(field.error);
      }
      var (f, n) := field.value;
      AfterAfter(data, offset, n);
      offset := offset + n;
      var put := Put(addons, f);
      if put.Err? {
        return Err(put.error);
      }
      addons := put.value;
    }
    AfterAt(data, offset);
    ParseSteps([], addons);
    r := Ok(addons);
  }

  // ---------------------------------------------------------------- concatenation

  /** Bytes the last field claims beyond the end of `s`. */
  function Overshoot(s: bytes): nat
    decreases |s|
  {
    if s == [] then 0
    else
      match ReadField(s, ADDONS, MAX_SKIP)
      case Err(_) => 0
      case Ok((_, n)) => if n <= |s| then Overshoot(s[n..]) else n - |s|
  }

  /** Fields of `b`, and those of `a` where `b` has none. */
  function Merge(a: Addons, b: Addons): Addons {
    Addons(if b.flow.Some? then b.flow else a.flow, if b.seed.Some? then b.seed else a.seed)
  }

  function MergeResult(a: Addons, r: Result<Addons, AddonsError>): Result<Addons, AddonsError> {
    if r.Ok? then Ok(Merge(a, r.value)) else r
  }

  lemma PutMerges(base: Addons, a: Addons, f: Field)
    ensures Put(Merge(base, a), f) == MergeResult(base, Put(a, f))
  {
  }

  /** Earlier fields only show through where later ones are absent. */
  lemma {:induction false} ParseIntoMerges(s: bytes, base: Addons, a: Addons)
    ensures ParseInto(s, Merge(base, a)) == MergeResult(base, ParseInto(s, a))
    decreases |s|
  {
    hide ReadField, Put;
    if s != [] && ReadField(s, ADDONS, MAX_SKIP).Ok? {
      var (f, n) := ReadField(s, ADDONS, MAX_SKIP).value;
      PutMerges(base, a, f);
      if Put(a, f).Ok? {
        ParseIntoMerges(After(s, n), base, Put(a, f).value);
      }
    }
  }

  lemma {:induction false} ParseContinues(a: bytes, b: bytes, acc: Addons)
    requires ParseInto(a, acc).Ok?
    ensures ParseInto(a + b, acc) == ParseInto(After(b, Overshoot(a)), ParseInto(a, acc).value)
    decreases |a|
  {
    hide ReadField, Put;
    if a == [] {
      assert a + b == b && After(b, 0) == b;
    } else {
      var (f, n) := ReadField(a, ADDONS, MAX_SKIP).value;
      FieldStands(a, ADDONS, MAX_SKIP, b);
      var acc' := Put(acc, f).value;
      if n <= |a| {
        assert After(a + b, n) == After(a, n) + b;
        assert After(a, n) == a[n..];
        ParseContinues(a[n..], b, acc');
      } else {
        assert After(a, n) == [];
        assert After(a + b, n) == After(b, n - |a|);
      }
    }
  }

  /** The concatenation law: reading `a` and then `b` is reading `b` (less the bytes `a`'s
      last field already claims) with absent fields filled from `a`, errors included. */
  lemma Concatenation(a: bytes, b: bytes)
    requires ParseAddons(a).Ok?
    ensures ParseAddons(a + b) == MergeResult(ParseAddons(a).value, ParseAddons(After(b, Overshoot(a))))
    ensures Overshoot(a) == 0 ==> ParseAddons(a + b) == MergeResult(ParseAddons(a).value, ParseAddons(b))
  {
    var x := ParseAddons(a).value;
    ParseContinues(a, b, NOTHING);
    ParseIntoMerges(After(b, Overshoot(a)), x, NOTHING);
    assert Merge(x, NOTHING) == x;
    if Overshoot(a) == 0 {
      assert After(b, 0) == b;
    }
  }

  // ---------------------------------------------------------------- building

  function BuildFlowMessage(flow: bytes): bytes {
    [0x0A, |flow| % 256] + flow
  }

  function BuildAddons(flow: bytes): bytes {
    var msg := BuildFlowMessage(flow);
    [0x0A, |msg| % 256] + msg
  }

  lemma SmallVarint(s: bytes)
    requires s != [] && s[0] < 128
    ensures ReadVarint(s) == Ok((s[0], 1))
  {
  }

  /** Field 1, length-delimited with a one-byte length, reads back. */
  lemma FieldOneReadsBack(payload: bytes, keep: Schema, skipMax: nat)
    requires |payload| < 128 && 1 in keep && keep[1] == MAX_NESTED
    ensures ReadField([0x0A, |payload|] + payload, keep, skipMax) == Ok((Kept(1, payload), 2 + |payload|))
  {
    var s := [0x0A, |payload|] + payload;
    SmallVarint(s);
    SmallVarint(s[1..]);
    assert s[1..][1..1 + |payload|] == payload;
    assert ReadDelimited(s[1..], MAX_NESTED) == Ok((payload, 1 + |payload|));
  }

  lemma FlowMessageReadsBack(flow: bytes)
    requires Utf8(flow) && |flow| < 128
    ensures ParseFlow([0x0A, |flow|] + flow, []) == Ok(flow)
  {
    hide Utf8;
    FieldOneReadsBack(flow, FLOW, MAX_NESTED);
    hide ReadField;
  }

  lemma BuildShape(flow: bytes)
    requires |flow| <= 125
    ensures BuildAddons(flow) == [0x0A, |flow| + 2] + ([0x0A, |flow|] + flow)
  {
  }

  lemma OneField(s: bytes, a: Addons, f: Field, a': Addons)
    requires s != [] && ReadField(s, ADDONS, MAX_SKIP) == Ok((f, |s|)) && Put(a, f) == Ok(a')
    ensures ParseInto(s, a) == Ok(a')
  {
    hide ReadField, Put;
  }

  lemma MessageReadsBack(msg: bytes, flow: bytes)
    requires |msg| < 128 && ParseFlow(msg, []) == Ok(flow)
    ensures ParseAddons([0x0A, |msg|] + msg) == Ok(Addons(Some(flow), None))
  {
    hide ReadField, ParseFlow, ParseInto;
    assert 1 in ADDONS && ADDONS[1] == MAX_NESTED;
    assert Put(NOTHING, Kept(1, msg)) == Ok(Addons(Some(flow), None));
    hide ADDONS, NOTHING, Put;
    FieldOneReadsBack(msg, ADDONS, MAX_SKIP);
    OneField([0x0A, |msg|] + msg, NOTHING, Kept(1, msg), Addons(Some(flow), None));
  }

  lemma ShortFlowReadsBack(flow: bytes)
    requires Utf8(flow) && |flow| <= 125
    ensures ParseAddons(BuildAddons(flow)) == Ok(Addons(Some(flow), None))
  {
    hide Utf8, ParseFlow, ParseAddons, BuildAddons;
    FlowMessageReadsBack(flow);
    MessageReadsBack([0x0A, |flow|] + flow, flow);
    BuildShape(flow);
  }

  lemma FieldHasHeader(s: bytes, keep: Schema, skipMax: nat)
    ensures var r := ReadField(s, keep, skipMax);
            r.Ok? && r.value.0.Kept? ==> r.value.0.number in keep && |r.value.0.payload| + 2 <= |s|
                                         && |r.value.0.payload| <= keep[r.value.0.number]
  {
  }

  lemma {:induction false} FlowIsShort(s: bytes, flow: bytes, max: nat)
    requires |flow| <= max && |s| <= max + 2
    ensures var r := ParseFlow(s, flow); r.Ok? ==> |r.value| <= max
    decreases |s|
  {
    hide Utf8;
    FieldHasHeader(s, FLOW, MAX_NESTED);
    hide ReadField;
    if s != [] && ReadField(s, FLOW, MAX_NESTED).Ok? {
      var (f, n) := ReadField(s, FLOW, MAX_NESTED).value;
      FlowIsShort(After(s, n), if f.Kept? then f.payload else flow, max);
    }
  }

  /** No addons yield a flow of more than 126 bytes. */
  lemma {:induction false} ParsedFlowIsShort(s: bytes, a: Addons)
    requires a.flow.Some? ==> |a.flow.value| <= 126
    ensures var r := ParseInto(s, a); r.Ok? && r.value.flow.Some? ==> |r.value.flow.value| <= 126
    decreases |s|
  {
    FieldHasHeader(s, ADDONS, MAX_SKIP);
    hide ReadField, ParseFlow;
    if s != [] && ReadField(s, ADDONS, MAX_SKIP).Ok? {
      var (f, n) := ReadField(s, ADDONS, MAX_SKIP).value;
      if f.Kept? && f.number == 1 {
        FlowIsShort(f.payload, [], 126);
      }
      if Put(a, f).Ok? {
        ParsedFlowIsShort(After(s, n), Put(a, f).value);
      }
    }
  }

  /** One byte too many: the length byte 128 reads as the start of a longer varint. */
  lemma Flow126Fails(flow: bytes)
    requires |flow| == 126
    ensures ParseAddons(BuildAddons(flow)) == Err(FlowTooLarge(1280))
  {
    var s := BuildAddons(flow);
    assert s[..3] == [0x0A, 128, 0x0A];
    SmallVarint(s);
    var t := s[1..];
    assert t[0] == 128 && t[1..][0] == 0x0A;
    assert Varint(t[1..], 1) == Ok((0x0A, 1));
    assert Varint(t, 0) == Ok((1280, 2));
    assert ReadDelimited(t, MAX_NESTED) == Err(FlowTooLarge(1280));
  }

  /** Built addons read back exactly when the flow has at most 125 bytes. */
  lemma FlowReadsBack(flow: bytes)
    requires Utf8(flow)
    ensures ParseAddons(BuildAddons(flow)) == Ok(Addons(Some(flow), None)) <==> |flow| <= 125
  {
    if |flow| <= 125 {
      ShortFlowReadsBack(flow);
    } else if |flow| == 126 {
      Flow126Fails(flow);
    } else {
      ParsedFlowIsShort(BuildAddons(flow), NOTHING);
    }
  }

  // ---------------------------------------------------------------- flow policy

  /** "xtls-rprx-vision" */
  const VISION: bytes := [120, 116, 108, 115, 45, 114, 112, 114, 120, 45, 118, 105, 115, 105, 111, 110]

  datatype UnsupportedFlow = Vision | Unknown(flow: bytes) | Mismatch(expected: bytes, got: Option<bytes>)

  function ValidateFlow(flow: Option<bytes>, userFlow: Option<bytes>): Result<(), UnsupportedFlow> {
    if flow == Some(VISION) then Err(Vision)
    else if flow.Some? && flow.value != [] then Err(Unknown(flow.value))
    else if userFlow.Some? && userFlow.value != [] && flow != userFlow then Err(Mismatch(userFlow.value, flow))
    else Ok(())
  }

  predicate Blank(flow: Option<bytes>) {
    flow == None || flow == Some([])
  }

  /** Which flow is refused how: first "xtls-rprx-vision", then any other text, then a text that
      is missing although one is configured. */
  lemma FlowErrors(flow: Option<bytes>, userFlow: Option<bytes>)
    ensures var r := ValidateFlow(flow, userFlow);
            && (r == Err(Vision) <==>
                  flow == Some([120, 116, 108, 115, 45, 114, 112, 114, 120, 45, 118, 105, 115, 105, 111, 110]))
            && (forall t :: r == Err(Unknown(t)) <==> flow == Some(t) && t != [] && r != Err(Vision))
            && (forall e, g :: r == Err(Mismatch(e, g)) <==> Blank(flow) && userFlow == Some(e) && e != [] && g == flow)
  {
  }

  /** Only blank flows pass, so a user with a configured flow is always turned away. */
  lemma OnlyBlankFlowsPass(flow: Option<bytes>, userFlow: Option<bytes>)
    ensures ValidateFlow(flow, userFlow).Ok? <==> Blank(flow) && Blank(userFlow)
  {
  }
}
