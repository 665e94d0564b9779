/** Addons as protobuf writes them: fields of every wire type, in any number and order, and
    what the reader takes from them. */
module AddonsWire {
  import opened Bytes
  import opened Addons

  /** A field by its wire type. */
  datatype WireField =
    | VarintField(number: nat, value: nat)
    | Fixed64(number: nat, data: bytes)
    | Delimited(number: nat, data: bytes)
    | Fixed32(number: nat, data: bytes)

  predicate IsField(f: WireField) {
    && f.number < U32_LIMIT
    && match f
       case VarintField(_, value) => value < U64_LIMIT
       case Fixed64(_, data) => |data| == 8
       case Delimited(_, data) => |data| < U64_LIMIT
       case Fixed32(_, data) => |data| == 4
  }

  /** Seven bits a byte, the lowest first, all but the last byte marked. */
  function EncodeVarint(n: nat): bytes {
    if n < 128 then [n] else [128 + n % 128] + EncodeVarint(n / 128)
  }

  function WireType(f: WireField): nat {
    match f
    case VarintField(_, _) => 0
    case Fixed64(_, _) => 1
    case Delimited(_, _) => 2
    case Fixed32(_, _) => 5
  }

  function EncodeField(f: WireField): bytes {
    EncodeVarint(8 * f.number + WireType(f)) +
    match f
    case VarintField(_, value) => EncodeVarint(value)
    case Fixed64(_, data) => data
    case Delimited(_, data) => EncodeVarint(|data|) + data
    case Fixed32(_, data) => data
  }

  function EncodeAll(fields: seq<WireField>): bytes {
    if fields == [] then [] else EncodeField(fields[0]) + EncodeAll(fields[1..])
  }

  // ---------------------------------------------------------------- varints

  lemma DivBelow(n: nat, p: nat)
    requires n < p * 128
    ensures n / 128 < p
  {
  }

  lemma {:induction false} VarintDecodes(n: nat, k: nat, t: bytes)
    requires k <= 9 && n < Power128(10 - k)
    ensures Varint(EncodeVarint(n) + t, k) == Ok((n, |EncodeVarint(n)|))
    decreases n
  {
    var s := EncodeVarint(n) + t;
    if n < 128 {
      assert s[0] == n;
    } else {
      assert Power128(10 - k) == Power128(9 - k) * 128;
      DivBelow(n, Power128(9 - k));
      assert k < 9;
      VarintDecodes(n / 128, k + 1, t);
      assert s[0] == 128 + n % 128 && s[1..] == EncodeVarint(n / 128) + t;
    }
  }

  lemma TenBytesSuffice()
    ensures U64_LIMIT <= Power128(10)
  {
    assert Power128(2) == 16384 && Power128(4) == 268435456 && Power128(6) == 4398046511104;
    assert Power128(8) == 72057594037927936;
  }

  /** Every 64-bit number reads back from the front of any bytes. */
  lemma VarintReadsBack(n: nat, t: bytes)
    requires n < U64_LIMIT
    ensures ReadVarint(EncodeVarint(n) + t) == Ok((n, |EncodeVarint(n)|))
  {
    TenBytesSuffice();
    hide Power128, EncodeVarint, Varint;
    VarintDecodes(n, 0, t);
  }

  // ---------------------------------------------------------------- fields

  lemma DelimitedReadsBack(data: bytes, max: nat, t: bytes)
    requires |data| < U64_LIMIT
    ensures var s := EncodeVarint(|data|) + data;
            ReadDelimited(s + t, max) ==
            if |data| > max then Err(if max == MAX_SEED then SeedTooLarge(|data|) else FlowTooLarge(|data|))
            else Ok((data, |s|))
  {
    var head, s := EncodeVarint(|data|), EncodeVarint(|data|) + data;
    VarintReadsBack(|data|, data + t);
    hide ReadVarint, EncodeVarint, U64_LIMIT;
    assert s + t == head + (data + t);
    assert (s + t)[|head|..|head| + |data|] == data;
  }

  /** The tag tells number and wire type. */
  lemma TagReadsBack(number: nat, wire: nat, t: bytes)
    requires number < U32_LIMIT && wire < 8
    ensures var tag := EncodeVarint(8 * number + wire);
            var r := ReadVarint(tag + t);
            r == Ok((8 * number + wire, |tag|)) && (tag + t)[|tag|..] == t
            && (r.value.0 / 8) % U32_LIMIT == number && r.value.0 % 8 == wire
  {
    VarintReadsBack(8 * number + wire, t);
    hide ReadVarint, EncodeVarint;
  }

  /** The limit on the data of a delimited field. */
  function LimitOf(number: nat, keep: Schema, skipMax: nat): nat {
    if number in keep then keep[number] else skipMax
  }

  /** What a field is read as behind its tag. */
  lemma BehindTag(number: nat, wire: nat, t: bytes, keep: Schema, skipMax: nat)
    requires number < U32_LIMIT && wire < 8
    ensures var tag := EncodeVarint(8 * number + wire);
            var r, v, d := ReadField(tag + t, keep, skipMax), ReadVarint(t), ReadDelimited(t, LimitOf(number, keep, skipMax));
            && (wire == 0 ==> r == if v.Err? then Err(v.error) else Ok((Skipped, |tag| + v.value.1)))
            && (wire == 1 ==> r == Ok((Skipped, |tag| + 8)))
            && (wire == 2 ==> r == if d.Err? then Err(d.error)
                                   else Ok((if number in keep then Kept(number, d.value.0) else Skipped, |tag| + d.value.1)))
            && (wire == 5 ==> r == Ok((Skipped, |tag| + 4)))
            && (wire == 3 || wire == 4 || wire == 6 || wire == 7 ==> r == Err(InvalidWireType(wire)))
  {
    TagReadsBack(number, wire, t);
    hide ReadVarint, EncodeVarint, ReadDelimited;
  }

  /** Wire types that protobuf gave up or never had are refused. */
  lemma OtherTypesAreRefused(number: nat, wire: nat, t: bytes, keep: Schema, skipMax: nat)
    requires number < U32_LIMIT && (wire == 3 || wire == 4 || wire == 6 || wire == 7)
    ensures ReadField(EncodeVarint(8 * number + wire) + t, keep, skipMax) == Err(InvalidWireType(wire))
  {
    BehindTag(number, wire, t, keep, skipMax);
  }

  lemma VarintFieldReadsBack(number: nat, value: nat, t: bytes, keep: Schema, skipMax: nat)
    requires IsField(VarintField(number, value))
    ensures var s := EncodeField(VarintField(number, value));
            ReadField(s + t, keep, skipMax) == Ok((Skipped, |s|))
  {
    hide ReadField, ReadVarint, EncodeVarint, ReadDelimited, LimitOf;
    var tag, rest := EncodeVarint(8 * number), EncodeVarint(value);
    assert EncodeField(VarintField(number, value)) + t == tag + (rest + t);
    VarintReadsBack(value, t);
    BehindTag(number, 0, rest + t, keep, skipMax);
  }

  lemma FixedFieldReadsBack(f: WireField, t: bytes, keep: Schema, skipMax: nat)
    requires IsField(f) && (f.Fixed64? || f.Fixed32?)
    ensures ReadField(EncodeField(f) + t, keep, skipMax) == Ok((Skipped, |EncodeField(f)|))
  {
    hide ReadField, ReadVarint, EncodeVarint, ReadDelimited, LimitOf;
    var tag := EncodeVarint(8 * f.number + WireType(f));
    assert EncodeField(f) + t == tag + (f.data + t);
    BehindTag(f.number, WireType(f), f.data + t, keep, skipMax);
  }

  lemma DelimitedFieldReadsBack(number: nat, data: bytes, t: bytes, keep: Schema, skipMax: nat)
    requires IsField(Delimited(number, data))
    ensures var s, max := EncodeField(Delimited(number, data)), LimitOf(number, keep, skipMax);
            ReadField(s + t, keep, skipMax) ==
            if |data| > max then Err(if max == MAX_SEED then SeedTooLarge(|data|) else FlowTooLarge(|data|))
            else Ok((if number in keep then Kept(number, data) else Skipped, |s|))
  {
    hide ReadField, ReadVarint, EncodeVarint, ReadDelimited, LimitOf;
    var tag, rest := EncodeVarint(8 * number + 2), EncodeVarint(|data|) + data;
    assert EncodeField(Delimited(number, data)) + t == tag + (rest + t);
    DelimitedReadsBack(data, LimitOf(number, keep, skipMax), t);
    BehindTag(number, 2, rest + t, keep, skipMax);
  }

  /** A field of any type reads back from the front of any bytes: kept by its number, skipped,
      or refused because it is too large. */
  lemma FieldReadsBack(f: WireField, t: bytes, keep: Schema, skipMax: nat)
    requires IsField(f)
    ensures var r, s := ReadField(EncodeField(f) + t, keep, skipMax), EncodeField(f);
            match f
            case Delimited(number, data) =>
              var max := LimitOf(number, keep, skipMax);
              r == if |data| > max then Err(if max == MAX_SEED then SeedTooLarge(|data|) else FlowTooLarge(|data|))
                   else Ok((if number in keep then Kept(number, data) else Skipped, |s|))
            case _ => r == Ok((Skipped, |s|))
  {
    hide ReadField, EncodeField, LimitOf;
    if f.Delimited? {
      DelimitedFieldReadsBack(f.number, f.data, t, keep, skipMax);
    } else if f.VarintField? {
      VarintFieldReadsBack(f.number, f.value, t, keep, skipMax);
    } else {
      FixedFieldReadsBack(f, t, keep, skipMax);
    }
  }

  // ---------------------------------------------------------------- messages

  /** What the nested flow message makes of a list of fields: the last text under number 1. */
  function FlowOf(fields: seq<WireField>, flow: bytes): Result<bytes, AddonsError> {
    if fields == [] then Ok(flow)
    else
      match fields[0]
      case Delimited(number, data) =>
        if |data| > 128 then Err(FlowTooLarge(|data|))
        else if number != 1 then FlowOf(fields[1..], flow)
        else if Utf8(data) then FlowOf(fields[1..], data)
        else Err(Truncated)
      case _ => FlowOf(fields[1..], flow)
  }

  /** What the addons make of a list of fields: the flow of the last message under number 1,
      the last seed under number 2. */
  function AddonsOf(fields: seq<WireField>, a: Addons): Result<Addons, AddonsError> {
    if fields == [] then Ok(a)
    else
      match fields[0]
      case Delimited(number, data) =>
        if number == 1 then
          if |data| > 128 then Err(FlowTooLarge(|data|))
          else
            match ParseFlow(data, [])
            case Err(e) => Err(e)
            case Ok(flow) => AddonsOf(fields[1..], a.(flow := Some(flow)))
        else if number == 2 then
          if |data| > 64 then Err(SeedTooLarge(|data|)) else AddonsOf(fields[1..], a.(seed := Some(data)))
        else if |data| > 512 then Err(FlowTooLarge(|data|))
        else AddonsOf(fields[1..], a)
      case _ => AddonsOf(fields[1..], a)
  }

  predicate AllFields(fields: seq<WireField>) {
    forall f :: f in fields ==> IsField(f)
  }

  lemma AfterField(s: bytes, t: bytes)
    requires s != []
    ensures After(s + t, |s|) == t && s + t != []
  {
  }

  lemma FieldIsNotEmpty(f: WireField)
    ensures EncodeField(f) != []
  {
  }

  lemma {:induction false} FlowIsRead(fields: seq<WireField>, flow: bytes)
    requires AllFields(fields)
    ensures ParseFlow(EncodeAll(fields), flow) == FlowOf(fields, flow)
    decreases fields
  {
    if fields != [] {
      var f, s, t := fields[0], EncodeField(fields[0]), EncodeAll(fields[1..]);
      assert f in fields && AllFields(fields[1..]) && 1 in FLOW && FLOW[1] == 128 && MAX_NESTED == 128;
      assert f.Delimited? ==> LimitOf(f.number, FLOW, MAX_NESTED) == 128 && (f.number in FLOW <==> f.number == 1);
      FieldIsNotEmpty(f);
      FieldReadsBack(f, t, FLOW, MAX_NESTED);
      AfterField(s, t);
      FlowIsRead(fields[1..], flow);
      if f.Delimited? {
        FlowIsRead(fields[1..], f.data);
      }
      hide ReadField, EncodeField, After, Utf8, LimitOf, FLOW, AllFields;
    }
  }

  lemma ReadsOne(s: bytes, t: bytes, a: Addons, f: Field)
    requires s != [] && ReadField(s + t, ADDONS, MAX_SKIP) == Ok((f, |s|))
    ensures var put := Put(a, f);
            ParseInto(s + t, a) == if put.Err? then Err(put.error) else ParseInto(t, put.value)
  {
    AfterField(s, t);
    hide ReadField, Put, After, ADDONS;
  }

  lemma ReadsNone(s: bytes, a: Addons)
    requires s != [] && ReadField(s, ADDONS, MAX_SKIP).Err?
    ensures ParseInto(s, a) == Err(ReadField(s, ADDONS, MAX_SKIP).error)
  {
    hide ReadField, Put, ADDONS;
  }

  lemma AddonsLimits(number: nat)
    ensures (number in ADDONS <==> number == 1 || number == 2) && MAX_SEED == 64
    ensures LimitOf(number, ADDONS, MAX_SKIP) == if number == 1 then 128 else if number == 2 then 64 else 512
  {
  }

  /** A message of any fields is read as they say, errors included. */
  lemma {:induction false} AddonsAreRead(fields: seq<WireField>, a: Addons)
    requires AllFields(fields)
    ensures ParseInto(EncodeAll(fields), a) == AddonsOf(fields, a)
    decreases fields
  {
    if fields != [] {
      var f, s, t := fields[0], EncodeField(fields[0]), EncodeAll(fields[1..]);
      assert f in fields && AllFields(fields[1..]);
      hide ReadField, EncodeField, LimitOf, ADDONS, AllFields, ParseInto, MAX_SEED, MAX_SKIP, ParseFlow;
      FieldIsNotEmpty(f);
      AddonsLimits(f.number);
      FieldReadsBack(f, t, ADDONS, MAX_SKIP);
      var r := ReadField(s + t, ADDONS, MAX_SKIP);
      if r.Err? {
        ReadsNone(s + t, a);
      } else {
        ReadsOne(s, t, a, r.value.0);
        var put := Put(a, r.value.0);
        if put.Ok? {
          AddonsAreRead(fields[1..], put.value);
        }
      }
    }
  }

  /** A seed on its own reads back exactly when it has at most 64 bytes. */
  lemma SeedReadsBack(seed: bytes)
    requires |seed| < U64_LIMIT
    ensures ParseAddons(EncodeField(Delimited(2, seed))) ==
            if |seed| <= 64 then Ok(Addons(None, Some(seed))) else Err(SeedTooLarge(|seed|))
  {
    var fields := [Delimited(2, seed)];
    assert fields[1..] == [] && EncodeAll(fields) == EncodeField(fields[0]) + [];
    assert EncodeField(fields[0]) + [] == EncodeField(fields[0]);
    AddonsAreRead(fields, NOTHING);
    hide EncodeField;
  }
}
