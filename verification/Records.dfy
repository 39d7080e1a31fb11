/** A message as a stream of records, by "Message Structure" of the Protocol Buffers Encoding specification:
    a field number with its wire type, and a payload. What each generated parser makes of any bytes is said in
    terms of that stream. */
module Records {
  import opened Bytes
  import opened Wire

  datatype Payload = Number(n: uint64) | Eight(data: bytes) | Text(data: bytes) | Four(data: bytes)

  datatype Field = Field(number: nat, payload: Payload)

  /** Field numbers have 29 bits. */
  predicate Fits(f: Field)
  {
    && 1 <= f.number < 0x2000_0000
    && match f.payload
       case Number(_) => true
       case Eight(b) => |b| == 8
       case Text(b) => |b| <= 0x7fff_ffff
       case Four(b) => |b| == 4
  }

  function EncodeField(f: Field): (r: bytes)
  {
    match f.payload
    case Number(n) => Varint(8 * f.number + 0) + Varint(n)
    case Eight(b) => Varint(8 * f.number + 1) + b
    case Text(b) => Varint(8 * f.number + 2) + (Varint(|b|) + b)
    case Four(b) => Varint(8 * f.number + 5) + b
  }

  function Encode(fs: seq<Field>): (r: bytes)
  {
    if fs == [] then [] else EncodeField(fs[0]) + Encode(fs[1..])
  }

  lemma {:induction false} EncodeConcat(a: seq<Field>, b: seq<Field>)
    ensures Encode(a + b) == Encode(a) + Encode(b)
  {
    hide EncodeField;
    if a == [] {
      assert a + b == b;
    } else {
      assert (a + b)[1..] == a[1..] + b;
      EncodeConcat(a[1..], b);
      ConcatAssoc(EncodeField(a[0]), Encode(a[1..]), Encode(b));
    }
  }

  lemma EncodeOne(f: Field)
    ensures Encode([f]) == EncodeField(f)
  {
    hide EncodeField;
    assert [f][1..] == [];
  }

  /** The messages of the specification's examples: 08 96 01, and 12 07 and the word "testing". */
  lemma SpecificationExamples()
    ensures Encode([Field(1, Number(150))]) == [0x08, 0x96, 0x01]
    ensures Encode([Field(2, Text([0x74, 0x65, 0x73, 0x74, 0x69, 0x6e, 0x67]))])
         == [0x12, 0x07, 0x74, 0x65, 0x73, 0x74, 0x69, 0x6e, 0x67]
  {
    VarintExample();
    EncodeOne(Field(1, Number(150)));
    EncodeOne(Field(2, Text([0x74, 0x65, 0x73, 0x74, 0x69, 0x6e, 0x67])));
  }

  // ---------- Taking a stream apart ----------

  function ReadField(s: bytes): (r: Read<Field>)
    ensures r.Got? ==> |r.rest| < |s|
  {
    match ReadTag(s)
    case Fail => Fail
    case Got(tag, p) =>
      if tag / 8 == 0 then Fail
      else if tag % 8 == 0 then
        (match ReadVarint64(p)
         case Fail => Fail
         case Got(n, q) => Got(Field(tag / 8, Number(n)), q))
      else if tag % 8 == 1 then
        if |p| < 8 then Fail else Got(Field(tag / 8, Eight(p[..8])), p[8..])
      else if tag % 8 == 2 then
        (match ReadLengthDelimited(p)
         case Fail => Fail
         case Got(b, q) => Got(Field(tag / 8, Text(b)), q))
      else if tag % 8 == 5 then
        if |p| < 4 then Fail else Got(Field(tag / 8, Four(p[..4])), p[4..])
      else Fail
  }

  /** All records, or nothing if the bytes are no stream of records. */
  function Split(s: bytes): (r: Option<seq<Field>>)
    decreases |s|
  {
    if s == [] then Some([])
    else
      match ReadField(s)
      case Fail => None
      case Got(f, rest) =>
        match Split(rest)
        case None => None
        case Some(fs) => Some([f] + fs)
  }

  lemma ReadTagOf(tag: nat, rest: bytes)
    requires tag < 0x1_0000_0000
    ensures ReadTag(Varint(tag) + rest) == Got(tag, rest)
  {
    hide Varint, ReadVarint, ReadTag;
    UInt32SizeExact(tag);
    ReadVarintOfVarint(tag, 5, rest);
    TagRead(Varint(tag) + rest, tag, rest);
  }

  lemma TagRead(s: bytes, tag: nat, rest: bytes)
    requires tag < 0x1_0000_0000 && ReadVarint(s, 5) == Got(tag, rest)
    ensures ReadTag(s) == Got(tag, rest)
  {
    hide ReadVarint;
  }

  lemma Varint64Short(n: uint64)
    ensures |Varint(n)| <= 10
  {
    if n >= 0x1_0000_0000 {
      assert Pow128(4) == 0x1000_0000;
      VarintGrows(n, 9);
    } else {
      UInt32SizeExact(n);
    }
  }

  lemma {:induction false} VarintGrows(n: nat, k: nat)
    requires n < 128 * Pow128(k)
    ensures |Varint(n)| <= k + 1
    decreases k
  {
    if k > 0 && n >= 128 { VarintGrows(n / 128, k - 1); }
  }

  lemma ReadFieldOf(f: Field, t: bytes)
    requires Fits(f)
    ensures ReadField(EncodeField(f) + t) == Got(f, t) && EncodeField(f) != []
  {
    hide Varint, ReadTag, ReadVarint64, ReadLengthDelimited;
    match f.payload
    case Number(n) =>
      ConcatAssoc(Varint(8 * f.number), Varint(n), t);
      ReadTagOf(8 * f.number, Varint(n) + t);
      Varint64Short(n);
      ReadVarint64Of(n, t);
    case Text(b) =>
      ConcatAssoc(Varint(8 * f.number + 2), LengthDelimited(b), t);
      ReadTagOf(8 * f.number + 2, LengthDelimited(b) + t);
      ReadLengthDelimitedOf(b, t);
    case Eight(b) =>
      ConcatAssoc(Varint(8 * f.number + 1), b, t);
      ReadTagOf(8 * f.number + 1, b + t);
      SplitConcat(b, t);
    case Four(b) =>
      ConcatAssoc(Varint(8 * f.number + 5), b, t);
      ReadTagOf(8 * f.number + 5, b + t);
      SplitConcat(b, t);
  }

  /** A stream of records is taken apart into exactly those records. */
  lemma {:induction false} SplitOfEncode(fs: seq<Field>)
    requires forall f :: f in fs ==> Fits(f)
    ensures Split(Encode(fs)) == Some(fs)
  {
    hide EncodeField, ReadField, Fits;
    if fs != [] {
      assert fs[0] in fs;
      ReadFieldOf(fs[0], Encode(fs[1..]));
      forall f | f in fs[1..] ensures f in fs { }
      SplitOfEncode(fs[1..]);
      assert [fs[0]] + fs[1..] == fs;
    }
  }

  // ---------- Last one wins ----------

  /** The text of the last length-delimited record with this number. */
  function LastText(fs: seq<Field>, number: nat, otherwise: bytes): (r: bytes)
  {
    if fs == [] then otherwise
    else
      var last := fs[|fs| - 1];
      if last.number == number && last.payload.Text? then last.payload.data
      else LastText(fs[..|fs| - 1], number, otherwise)
  }

  /** The value of the last varint record with this number. */
  function LastNumber(fs: seq<Field>, number: nat, otherwise: uint64): (r: uint64)
  {
    if fs == [] then otherwise
    else
      var last := fs[|fs| - 1];
      if last.number == number && last.payload.Number? then last.payload.n
      else LastNumber(fs[..|fs| - 1], number, otherwise)
  }

  lemma {:induction false} LastTextFirst(f: Field, fs: seq<Field>, number: nat, otherwise: bytes)
    ensures LastText([f] + fs, number, otherwise)
         == LastText(fs, number, if f.number == number && f.payload.Text? then f.payload.data else otherwise)
  {
    if fs == [] {
      assert [f] + fs == [f] && [f][..0] == [];
    } else {
      assert ([f] + fs)[..|fs|] == [f] + fs[..|fs| - 1];
      LastTextFirst(f, fs[..|fs| - 1], number, otherwise);
    }
  }

  lemma {:induction false} LastNumberFirst(f: Field, fs: seq<Field>, number: nat, otherwise: uint64)
    ensures LastNumber([f] + fs, number, otherwise)
         == LastNumber(fs, number, if f.number == number && f.payload.Number? then f.payload.n else otherwise)
  {
    if fs == [] {
      assert [f] + fs == [f] && [f][..0] == [];
    } else {
      assert ([f] + fs)[..|fs|] == [f] + fs[..|fs| - 1];
      LastNumberFirst(f, fs[..|fs| - 1], number, otherwise);
    }
  }

  /** A field no message declares is skipped exactly as far as its record goes. */
  lemma SkipIsRead(s: bytes)
    ensures ReadTag(s).Got? ==>
              (SkipField(ReadTag(s).value, ReadTag(s).rest).Fail? <==> ReadField(s).Fail?)
    ensures ReadField(s).Got? ==>
              ReadTag(s).Got? && SkipField(ReadTag(s).value, ReadTag(s).rest) == Got((), ReadField(s).rest)
  {
    hide ReadTag, ReadVarint, ReadLengthDelimited;
  }

  /** A declared text field, whose tag is `8 * number + 2`. */
  lemma TextIsRead(s: bytes, number: nat)
    requires ReadTag(s).Got? && 0 < number < 16
    ensures (ReadTag(s).value / 8 == number && ReadTag(s).value % 256 == 8 * number + 2)
       <==> ReadTag(s).value == 8 * number + 2
    ensures ReadTag(s).value == 8 * number + 2 ==>
              ReadField(s) == match ReadLengthDelimited(ReadTag(s).rest)
                              case Fail => Fail
                              case Got(b, q) => Got(Field(number, Text(b)), q)
    ensures ReadField(s).Got? && ReadField(s).value.number == number && ReadField(s).value.payload.Text? ==>
              ReadTag(s).value == 8 * number + 2
  {
    hide ReadTag, ReadVarint64, ReadLengthDelimited;
  }

  lemma NumberIsRead(s: bytes, number: nat)
    requires ReadTag(s).Got? && 0 < number < 16
    ensures (ReadTag(s).value / 8 == number && ReadTag(s).value % 256 == 8 * number)
       <==> ReadTag(s).value == 8 * number
    ensures ReadTag(s).value == 8 * number ==>
              ReadField(s) == match ReadVarint64(ReadTag(s).rest)
                              case Fail => Fail
                              case Got(n, q) => Got(Field(number, Number(n)), q)
    ensures ReadField(s).Got? && ReadField(s).value.number == number && ReadField(s).value.payload.Number? ==>
              ReadTag(s).value == 8 * number
  {
    hide ReadTag, ReadVarint64, ReadLengthDelimited;
  }

  lemma TruncatedTwice(p: bytes)
    ensures ReadVarint32(p) == match ReadVarint64(p)
                               case Fail => Fail
                               case Got(n, q) => Got(n % 0x1_0000_0000, q)
  {
    hide ReadVarint;
    match ReadVarint(p, 10)
    case Fail =>
    case Got(n, _) => LowBits(n);
  }

  lemma LowBits(n: nat)
    ensures n % 0x1_0000_0000_0000_0000 % 0x1_0000_0000 == n % 0x1_0000_0000
  {
    var q := n / 0x1_0000_0000_0000_0000;
    assert n == n % 0x1_0000_0000_0000_0000 + q * 0x1_0000_0000 * 0x1_0000_0000;
  }
}
