/** The primitives of the Protocol Buffers encoding: varints, tags, length-delimited records. */
module Wire {
  import opened Bytes

  /** What a reader leaves behind: a value and the unread bytes, or a null pointer. */
  datatype Read<+T> = Fail | Got(value: T, rest: bytes)

  // ---------- Base 128 varints ----------

  function Varint(n: nat): (r: bytes)
    ensures r != []
  {
    if n < 128 then [n] else [128 + n % 128] + Varint(n / 128)
  }

  /** At most `limit` bytes; the value is not yet truncated. */
  function ReadVarint(s: bytes, limit: nat): (r: Read<nat>)
    ensures r.Got? ==> |r.rest| < |s|
    decreases limit
  {
    if limit == 0 || s == [] then Fail
    else if s[0] < 128 then Got(s[0], s[1..])
    else
      match ReadVarint(s[1..], limit - 1)
      case Fail => Fail
      case Got(high, rest) => Got(s[0] - 128 + 128 * high, rest)
  }

  lemma {:induction false} ReadVarintOfVarint(n: nat, limit: nat, rest: bytes)
    requires |Varint(n)| <= limit
    ensures ReadVarint(Varint(n) + rest, limit) == Got(n, rest)
    decreases n
  {
    var s := Varint(n) + rest;
    if n < 128 {
      assert s[1..] == rest;
    } else {
      assert s[1..] == Varint(n / 128) + rest;
      ReadVarintOfVarint(n / 128, limit - 1, rest);
    }
  }

  function ReadVarint64(s: bytes): (r: Read<uint64>)
    ensures r.Got? ==> |r.rest| < |s|
  {
    match ReadVarint(s, 10)
    case Fail => Fail
    case Got(n, rest) => Got(n % 0x1_0000_0000_0000_0000, rest)
  }

  lemma {:induction false} ReadVarint64Of(n: uint64, rest: bytes)
    requires |Varint(n)| <= 10
    ensures ReadVarint64(Varint(n) + rest) == Got(n, rest)
  {
    ReadVarintOfVarint(n, 10, rest);
    assert n % 0x1_0000_0000_0000_0000 == n;
  }

  function ReadVarint32(s: bytes): (r: Read<uint32>)
    ensures r.Got? ==> |r.rest| < |s|
  {
    match ReadVarint(s, 10)
    case Fail => Fail
    case Got(n, rest) => Got(n % 0x1_0000_0000, rest)
  }

  function ReadTag(s: bytes): (r: Read<uint32>)
    ensures r.Got? ==> |r.rest| < |s|
  {
    match ReadVarint(s, 5)
    case Fail => Fail
    case Got(n, rest) => Got(n % 0x1_0000_0000, rest)
  }

  lemma {:induction false} ReadTagSingle(tag: byte, rest: bytes)
    requires tag < 128
    ensures ReadTag([tag] + rest) == Got(tag, rest)
  {
    assert ([tag] + rest)[1..] == rest;
  }

  /** What the bytes stand for by "Base 128 Varints": the low seven bits of each, least significant first. */
  function Groups(s: bytes): (n: nat)
  {
    if s == [] then 0 else s[0] % 128 + 128 * Groups(s[1..])
  }

  /** The top bit is set on every byte but the last. */
  predicate OneVarint(s: bytes)
  {
    s != [] && s[|s| - 1] < 128 && forall i :: 0 <= i < |s| - 1 ==> s[i] >= 128
  }

  /** What is written is one varint, as short as can be, that stands for the number. */
  lemma {:induction false} VarintDenotes(n: nat)
    ensures OneVarint(Varint(n)) && Groups(Varint(n)) == n
    ensures |Varint(n)| > 1 ==> Varint(n)[|Varint(n)| - 1] > 0
    decreases n
  {
    if n >= 128 {
      var more := Varint(n / 128);
      VarintDenotes(n / 128);
      assert Varint(n)[1..] == more;
      assert forall i :: 0 < i < |Varint(n)| ==> Varint(n)[i] == more[i - 1];
    } else {
      assert Varint(n)[1..] == [];
    }
  }

  /** What is read is the varint that the input starts with, if it is not longer than allowed. */
  lemma {:induction false} ReadVarintExactly(s: bytes, limit: nat, k: nat)
    requires k <= |s| && OneVarint(s[..k])
    ensures ReadVarint(s, limit) == if k <= limit then Got(Groups(s[..k]), s[k..]) else Fail
    decreases k
  {
    assert s[..k][0] == s[0] && s[..k][k - 1] == s[k - 1] && s[..k][1..] == s[1..][..k - 1];
    if k > 1 {
      assert s[0] >= 128;
      var t := s[1..][..k - 1];
      forall i | 0 <= i < k - 2 ensures t[i] >= 128 { assert s[..k][i + 1] >= 128; }
      if limit > 0 { ReadVarintExactly(s[1..], limit - 1, k - 1); }
    } else {
      assert s[1..][..0] == [];
    }
  }

  lemma {:induction false} ReadVarintUnended(s: bytes, limit: nat)
    requires forall i :: 0 <= i < |s| ==> s[i] >= 128
    ensures ReadVarint(s, limit) == Fail
    decreases limit
  {
    if limit > 0 && s != [] { ReadVarintUnended(s[1..], limit - 1); }
  }

  /** So numbers are read modulo 2^64 or 2^32 from at most ten bytes, tags and sizes from at most five, and a
      size above 2^31 - 1 or past the end is refused. */
  lemma ReadersExactly(s: bytes, k: nat)
    requires k <= |s| && OneVarint(s[..k])
    ensures ReadVarint64(s) == if k <= 10 then Got(Groups(s[..k]) % 0x1_0000_0000_0000_0000, s[k..]) else Fail
    ensures ReadVarint32(s) == if k <= 10 then Got(Groups(s[..k]) % 0x1_0000_0000, s[k..]) else Fail
    ensures ReadTag(s) == if k <= 5 then Got(Groups(s[..k]) % 0x1_0000_0000, s[k..]) else Fail
    ensures ReadLengthDelimited(s)
         == if k <= 5 && Groups(s[..k]) <= 0x7fff_ffff && Groups(s[..k]) <= |s| - k
            then Got(s[k..][..Groups(s[..k])], s[k..][Groups(s[..k])..]) else Fail
  {
    ReadVarintExactly(s, 10, k);
    ReadVarintExactly(s, 5, k);
    hide ReadVarint, Groups;
  }

  /** The example of "Base 128 Varints": 150 is 96 01. */
  lemma VarintExample()
    ensures Varint(150) == [0x96, 0x01] && ReadVarint([0x96, 0x01], 10) == Got(150, [])
    ensures Varint(300) == [0xAC, 0x02] && ReadVarint([0xAC, 0x02], 10) == Got(300, [])
  {
    assert [0x96, 0x01][1..] == [0x01] && [0x01][1..] == [];
    assert [0xAC, 0x02][1..] == [0x02] && [0x02][1..] == [];
    assert Varint(1) == [1] && Varint(2) == [2];
  }

  /** The 64-bit pattern an `int32` is sign-extended to before it is written. */
  function SignExtend(x: int32): (r: uint64)
    ensures ToInt32(r) == x
    ensures (r - x) % 0x1_0000_0000_0000_0000 == 0
  {
    if x < 0 then x + TWO_64 else x
  }

  // ---------- Sizes, as the library computes them without encoding ----------

  function UInt32Size(n: uint32): (r: nat)
  {
    if n < 0x80 then 1
    else if n < 0x4000 then 2
    else if n < 0x20_0000 then 3
    else if n < 0x1000_0000 then 4
    else 5
  }

  function Int32Size(x: int32): (r: nat)
  {
    if x < 0 then 10 else UInt32Size(x)
  }

  function Pow128(k: nat): (r: nat)
    ensures r > 0
  {
    if k == 0 then 1 else 128 * Pow128(k - 1)
  }

  lemma {:induction false} SevenGroups(n: nat, k: nat)
    requires Pow128(k) <= n < 128 * Pow128(k)
    ensures |Varint(n)| == k + 1
    decreases k
  {
    if k > 0 {
      SevenGroups(n / 128, k - 1);
    }
  }

  lemma {:induction false} UInt32SizeExact(n: uint32)
    ensures |Varint(n)| == UInt32Size(n)
  {
    assert Pow128(1) == 0x80;
    assert Pow128(2) == 0x4000;
    assert Pow128(3) == 0x20_0000;
    assert Pow128(4) == 0x1000_0000;
    if n >= 0x80 {
      SevenGroups(n, UInt32Size(n) - 1);
    }
  }

  lemma {:induction false} Int32SizeExact(x: int32)
    ensures |Varint(SignExtend(x))| == Int32Size(x)
  {
    if x >= 0 {
      UInt32SizeExact(x);
    } else {
      assert Pow128(4) == 0x1000_0000;
      assert Pow128(9) == 0x8000_0000_0000_0000;
      SevenGroups(SignExtend(x), 9);
    }
  }

  // ---------- Length-delimited records ----------

  function LengthDelimited(payload: bytes): (r: bytes)
  {
    Varint(|payload|) + payload
  }

  function LengthDelimitedSize(n: nat): (r: nat)
    ensures r > n
  {
    n + UInt32Size(n % 0x1_0000_0000)
  }

  /** A size prefix and that many bytes. Sizes above `INT_MAX` or past the end are refused. */
  function ReadLengthDelimited(s: bytes): (r: Read<bytes>)
    ensures r.Got? ==> |r.rest| < |s| && |r.value| < |s|
  {
    match ReadVarint(s, 5)
    case Fail => Fail
    case Got(n, rest) =>
      if n > INT_MAX || n > |rest| then Fail else Got(rest[..n], rest[n..])
  }

  lemma {:induction false} ReadLengthDelimitedOf(payload: bytes, rest: bytes)
    requires |payload| <= INT_MAX
    ensures ReadLengthDelimited(LengthDelimited(payload) + rest) == Got(payload, rest)
  {
    var prefix := Varint(|payload|);
    UInt32SizeExact(|payload|);
    ConcatAssoc(prefix, payload, rest);
    ReadVarintOfVarint(|payload|, 5, payload + rest);
    SplitConcat(payload, rest);
  }

  lemma {:induction false} LengthDelimitedSizeExact(payload: bytes)
    requires |payload| < TWO_32
    ensures |LengthDelimited(payload)| == LengthDelimitedSize(|payload|)
  {
    UInt32SizeExact(|payload|);
    assert |payload| % TWO_32 == |payload|;
  }

  /** A length-delimited record with its one-byte tag. */
  function Record(tag: byte, payload: bytes): (r: bytes)
  {
    [tag] + LengthDelimited(payload)
  }

  lemma {:induction false} ReadRecord(tag: byte, payload: bytes, rest: bytes)
    requires tag < 128 && |payload| <= INT_MAX
    ensures ReadTag(Record(tag, payload) + rest) == Got(tag, LengthDelimited(payload) + rest)
    ensures ReadLengthDelimited(LengthDelimited(payload) + rest) == Got(payload, rest)
  {
    ConcatAssoc([tag], LengthDelimited(payload), rest);
    ReadTagSingle(tag, LengthDelimited(payload) + rest);
    ReadLengthDelimitedOf(payload, rest);
  }

  /** `InternalWriteMessage`: append tag, the size the nested message remembered, its contents. */
  function WriteNested(tag: byte, cachedSize: nat, contents: bytes, target: bytes): (r: bytes)
    ensures cachedSize == |contents| ==> r == target + Record(tag, contents)
  {
    target + [tag] + Varint(cachedSize) + contents
  }

  // ---------- String and bytes fields: an empty one is omitted ----------

  function StringField(tag: byte, s: bytes): (r: bytes)
  {
    if s == [] then [] else Record(tag, s)
  }

  /** `WriteBytesMaybeAliased`: append tag, size and contents to the output written so far. */
  function WriteBytes(tag: byte, s: bytes, target: bytes): (r: bytes)
    requires s != []
    ensures r == target + StringField(tag, s)
  {
    target + [tag] + Varint(|s|) + s
  }

  function StringFieldSize(s: bytes): (r: nat)
    ensures r >= |s|
  {
    if s == [] then 0 else 1 + LengthDelimitedSize(|s|)
  }

  lemma {:induction false} StringFieldSizeExact(tag: byte, s: bytes)
    requires |s| <= INT_MAX
    ensures |StringField(tag, s)| == StringFieldSize(s)
  {
    LengthDelimitedSizeExact(s);
  }

  /** The `MergeFrom` rule for a scalar string: only a set value overwrites. */
  function MergeString(mine: bytes, theirs: bytes): (r: bytes)
  {
    if theirs == [] then mine else theirs
  }

  // ---------- Fields no message declares ----------

  /** What a parse loop does with any other tag: an end-group or zero tag ends the message (which
      a length-bounded message then rejects); a known wire type is skipped. */
  function SkipField(tag: uint32, s: bytes): (r: Read<()>)
    ensures r.Got? ==> |r.rest| <= |s|
  {
    if tag == 0 || tag / 8 == 0 then Fail
    else if tag % 8 == 0 then
      match ReadVarint(s, 10)
      case Fail => Fail
      case Got(_, rest) => Got((), rest)
    else if tag % 8 == 1 then
      if |s| < 8 then Fail else Got((), s[8..])
    else if tag % 8 == 2 then
      match ReadLengthDelimited(s)
      case Fail => Fail
      case Got(_, rest) => Got((), rest)
    else if tag % 8 == 5 then
      if |s| < 4 then Fail else Got((), s[4..])
    else Fail
  }
}
