/** The generated message `mprpc.RpcHeader`: bytes service_name = 1; bytes method_name = 2; uint32 args_size = 3. */
module RpcHeaders {
  import opened Bytes
  import opened Wire

  datatype HeaderValue = HeaderValue(serviceName: bytes, methodName: bytes, argsSize: uint32)

  const EMPTY_HEADER := HeaderValue([], [], 0)

  /** One round of the parse loop, on unread bytes `s`. */
  function ReadHeaderField(v: HeaderValue, tag: uint32, p: bytes): (r: Read<HeaderValue>)
    ensures r.Got? ==> |r.rest| <= |p|
  {
    if tag / 8 == 1 && tag % 256 == 10 then
      match ReadLengthDelimited(p)
      case Fail => Fail
      case Got(text, q) => Got(v.(serviceName := text), q)
    else if tag / 8 == 2 && tag % 256 == 18 then
      match ReadLengthDelimited(p)
      case Fail => Fail
      case Got(text, q) => Got(v.(methodName := text), q)
    else if tag / 8 == 3 && tag % 256 == 24 then
      match ReadVarint32(p)
      case Fail => Fail
      case Got(n, q) => Got(v.(argsSize := n), q)
    else
      match SkipField(tag, p)
      case Fail => Fail
      case Got(_, q) => Got(v, q)
  }

  function HeaderStep(v: HeaderValue, s: bytes): (r: Read<HeaderValue>)
    ensures r.Got? ==> |r.rest| < |s|
  {
    match ReadTag(s)
    case Fail => Fail
    case Got(tag, p) => ReadHeaderField(v, tag, p)
  }

  /** Parsing `s` on top of the fields already set. */
  function ParseHeader(v: HeaderValue, s: bytes): (r: Option<HeaderValue>)
    decreases |s|
  {
    if s == [] then Some(v)
    else
      match HeaderStep(v, s)
      case Fail => None
      case Got(w, rest) => ParseHeader(w, rest)
  }

  function ArgsSizeField(n: uint32): (r: bytes)
  {
    if n == 0 then [] else [24] + Varint(n)
  }

  function WriteUInt32(tag: byte, n: uint32, target: bytes): (r: bytes)
  {
    target + ([tag] + Varint(n))
  }

  function EncodeHeader(v: HeaderValue): (r: bytes)
  {
    StringField(10, v.serviceName) + StringField(18, v.methodName) + ArgsSizeField(v.argsSize)
  }

  function HeaderSize(v: HeaderValue): (r: nat)
  {
    StringFieldSize(v.serviceName) + StringFieldSize(v.methodName)
    + if v.argsSize == 0 then 0 else 1 + UInt32Size(v.argsSize)
  }

  function MergeHeader(a: HeaderValue, b: HeaderValue): (r: HeaderValue)
  {
    HeaderValue(MergeString(a.serviceName, b.serviceName),
                MergeString(a.methodName, b.methodName),
                if b.argsSize == 0 then a.argsSize else b.argsSize)
  }

  lemma {:induction false} HeaderSizeExact(v: HeaderValue)
    requires HeaderSize(v) <= INT_MAX
    ensures |EncodeHeader(v)| == HeaderSize(v)
  {
    StringFieldSizeExact(10, v.serviceName);
    StringFieldSizeExact(18, v.methodName);
    UInt32SizeExact(v.argsSize);
  }

  lemma {:induction false} ServiceNameStep(v: HeaderValue, s: bytes, p: bytes, text: bytes, t: bytes)
    requires s != [] && ReadTag(s) == Got(10, p) && ReadLengthDelimited(p) == Got(text, t)
    ensures ParseHeader(v, s) == ParseHeader(v.(serviceName := text), t)
  {
    hide ReadTag, ReadLengthDelimited, ReadVarint32, SkipField;
    assert HeaderStep(v, s) == Got(v.(serviceName := text), t);
  }

  lemma {:induction false} ParseServiceName(v: HeaderValue, text: bytes, t: bytes)
    requires |text| <= INT_MAX
    ensures ParseHeader(v, StringField(10, text) + t) == ParseHeader(v.(serviceName := MergeString(v.serviceName, text)), t)
  {
    if text == [] {
      assert StringField(10, text) + t == t;
    } else {
      ReadRecord(10, text, t);
      ServiceNameStep(v, Record(10, text) + t, LengthDelimited(text) + t, text, t);
    }
  }

  lemma {:induction false} ParseMethodName(v: HeaderValue, text: bytes, t: bytes)
    requires |text| <= INT_MAX
    ensures ParseHeader(v, StringField(18, text) + t) == ParseHeader(v.(methodName := MergeString(v.methodName, text)), t)
  {
    if text == [] {
      assert StringField(18, text) + t == t;
    } else {
      var s := StringField(18, text) + t;
      ReadRecord(18, text, t);
      assert HeaderStep(v, s) == Got(v.(methodName := text), t);
    }
  }

  lemma {:induction false} ParseArgsSize(v: HeaderValue, n: uint32, t: bytes)
    ensures ParseHeader(v, ArgsSizeField(n) + t) == ParseHeader(v.(argsSize := if n == 0 then v.argsSize else n), t)
  {
    if n == 0 {
      assert ArgsSizeField(n) + t == t;
    } else {
      var s := ArgsSizeField(n) + t;
      assert s == [24] + (Varint(n) + t);
      ReadTagSingle(24, Varint(n) + t);
      UInt32SizeExact(n);
      ReadVarintOfVarint(n, 10, t);
      assert HeaderStep(v, s) == Got(v.(argsSize := n), t);
    }
  }

  /** Reading an encoded header on top of `v` merges it into `v` and goes on with what follows. */
  lemma {:induction false} ParseEncodedHeader(v: HeaderValue, a: HeaderValue, t: bytes)
    requires HeaderSize(a) <= INT_MAX
    ensures ParseHeader(v, EncodeHeader(a) + t) == ParseHeader(MergeHeader(v, a), t)
  {
    var f2, f3 := StringField(18, a.methodName), ArgsSizeField(a.argsSize);
    assert EncodeHeader(a) + t == StringField(10, a.serviceName) + (f2 + (f3 + t));
    ParseServiceName(v, a.serviceName, f2 + (f3 + t));
    var v1 := v.(serviceName := MergeString(v.serviceName, a.serviceName));
    ParseMethodName(v1, a.methodName, f3 + t);
    ParseArgsSize(v1.(methodName := MergeString(v.methodName, a.methodName)), a.argsSize, t);
  }

  lemma {:induction false} HeaderRoundTrip(a: HeaderValue)
    requires HeaderSize(a) <= INT_MAX
    ensures ParseHeader(EMPTY_HEADER, EncodeHeader(a)) == Some(a)
  {
    ParseEncodedHeader(EMPTY_HEADER, a, []);
    assert EncodeHeader(a) + [] == EncodeHeader(a);
  }

  class RpcHeader {
    var serviceName: bytes
    var methodName: bytes
    var argsSize: uint32
    var cachedSize: int32

    constructor ()
      ensures Value() == EMPTY_HEADER
    {
      serviceName, methodName, argsSize, cachedSize := [], [], 0, 0;
    }

    function Value(): (v: HeaderValue)
      reads this
    {
      HeaderValue(serviceName, methodName, argsSize)
    }

    method Clear()
      modifies this
      ensures Value() == EMPTY_HEADER && cachedSize == old(cachedSize)
    {
      serviceName, methodName, argsSize := [], [], 0;
    }

    method InternalParse(data: bytes) returns (ok: bool)
      modifies this
      ensures cachedSize == old(cachedSize)
      ensures ok == ParseHeader(old(Value()), data).Some?
      ensures ok ==> Value() == ParseHeader(old(Value()), data).value
    {
      var ptr := data;
      while ptr != []
        invariant ParseHeader(old(Value()), data) == ParseHeader(Value(), ptr)
        invariant cachedSize == old(cachedSize)
        decreases |ptr|
      {
        ghost var before := Value();
        var t := ReadTag(ptr);
        if t.Fail? { return false; }
        var tag := t.value;
        if tag / 8 == 1 && tag % 256 == 10 {
          var str := ReadLengthDelimited(t.rest);
          if str.Fail? { return false; }
          serviceName := str.value;
          assert HeaderStep(before, ptr) == Got(Value(), str.rest);
          ptr := str.rest;
        } else if tag / 8 == 2 && tag % 256 == 18 {
          var str := ReadLengthDelimited(t.rest);
          if str.Fail? { return false; }
          methodName := str.value;
          assert HeaderStep(before, ptr) == Got(Value(), str.rest);
          ptr := str.rest;
        } else if tag / 8 == 3 && tag % 256 == 24 {
          var n := ReadVarint32(t.rest);
          if n.Fail? { return false; }
          argsSize := n.value;
          assert HeaderStep(before, ptr) == Got(Value(), n.rest);
          ptr := n.rest;
        } else {
          var skipped := SkipField(tag, t.rest);
          if skipped.Fail? { return false; }
          ptr := skipped.rest;
        }
      }
      return true;
    }

    method ParseFromString(data: bytes) returns (ok: bool)
      modifies this
      ensures ok == ParseHeader(EMPTY_HEADER, data).Some?
      ensures ok ==> Value() == ParseHeader(EMPTY_HEADER, data).value
    {
      Clear();
      ok := InternalParse(data);
    }

    method InternalSerialize(target: bytes) returns (out: bytes)
      ensures out == target + EncodeHeader(Value())
    {
      ghost var f1, f2, f3 := StringField(10, serviceName), StringField(18, methodName), ArgsSizeField(argsSize);
      out := target;
      if |serviceName| > 0 { out := WriteBytes(10, serviceName, out); }
      assert out == target + f1;
      if |methodName| > 0 { out := WriteBytes(18, methodName, out); }
      assert out == target + (f1 + f2) by { ConcatAssoc(target, f1, f2); }
      if argsSize != 0 { out := WriteUInt32(24, argsSize, out); }
      ConcatAssoc(target, f1 + f2, f3);
    }

    method ByteSizeLong() returns (total: nat)
      modifies this`cachedSize
      ensures total == HeaderSize(Value())
      ensures cachedSize == ToInt32(total)
    {
      total := 0;
      if |serviceName| > 0 { total := total + 1 + LengthDelimitedSize(|serviceName|); }
      if |methodName| > 0 { total := total + 1 + LengthDelimitedSize(|methodName|); }
      if argsSize != 0 { total := total + 1 + UInt32Size(argsSize); }
      cachedSize := ToInt32(total);
    }

    /** Refused exactly when the message is too large for the wire. */
    method SerializePartialToString() returns (out: Option<bytes>)
      modifies this`cachedSize
      ensures out == if HeaderSize(Value()) > INT_MAX then None else Some(EncodeHeader(Value()))
    {
      var size := ByteSizeLong();
      if size > INT_MAX { return None; }
      var str := InternalSerialize([]);
      assert str == EncodeHeader(Value());
      out := Some(str);
    }

    method MergeFrom(from: RpcHeader)
      modifies this
      ensures Value() == MergeHeader(old(Value()), old(from.Value()))
    {
      if |from.serviceName| > 0 { serviceName := from.serviceName; }
      if |from.methodName| > 0 { methodName := from.methodName; }
      if from.argsSize != 0 { argsSize := from.argsSize; }
    }
  }
}
