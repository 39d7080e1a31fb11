/** The generated messages of package `ai_agent`: `ResultCode` and, nesting it, `ToolCallResponse`. */
module AgentMessages {
  import opened Bytes
  import opened Wire

  // ---------- ResultCode: int32 errcode = 1; bytes errmsg = 2 ----------

  datatype ResultValue = ResultValue(errcode: int32, errmsg: bytes)

  const EMPTY_RESULT := ResultValue(0, [])

  function ReadResultField(v: ResultValue, tag: uint32, p: bytes): (r: Read<ResultValue>)
    ensures r.Got? ==> |r.rest| <= |p|
  {
    if tag / 8 == 1 && tag % 256 == 8 then
      match ReadVarint64(p)
      case Fail => Fail
      case Got(n, q) => Got(v.(errcode := ToInt32(n)), q)
    else if tag / 8 == 2 && tag % 256 == 18 then
      match ReadLengthDelimited(p)
      case Fail => Fail
      case Got(text, q) => Got(v.(errmsg := text), q)
    else
      match SkipField(tag, p)
      case Fail => Fail
      case Got(_, q) => Got(v, q)
  }

  function ResultStep(v: ResultValue, s: bytes): (r: Read<ResultValue>)
    ensures r.Got? ==> |r.rest| < |s|
  {
    match ReadTag(s)
    case Fail => Fail
    case Got(tag, p) => ReadResultField(v, tag, p)
  }

  function ParseResult(v: ResultValue, s: bytes): (r: Option<ResultValue>)
    decreases |s|
  {
    if s == [] then Some(v)
    else
      match ResultStep(v, s)
      case Fail => None
      case Got(w, rest) => ParseResult(w, rest)
  }

  function ErrcodeField(x: int32): (r: bytes)
  {
    if x == 0 then [] else [8] + Varint(SignExtend(x))
  }

  function EncodeResult(v: ResultValue): (r: bytes)
  {
    ErrcodeField(v.errcode) + StringField(18, v.errmsg)
  }

  function ResultSize(v: ResultValue): (r: nat)
  {
    StringFieldSize(v.errmsg) + if v.errcode == 0 then 0 else 1 + Int32Size(v.errcode)
  }

  function MergeResult(a: ResultValue, b: ResultValue): (r: ResultValue)
  {
    ResultValue(if b.errcode == 0 then a.errcode else b.errcode, MergeString(a.errmsg, b.errmsg))
  }

  lemma {:induction false} ResultSizeExact(v: ResultValue)
    requires ResultSize(v) <= INT_MAX
    ensures |EncodeResult(v)| == ResultSize(v)
  {
    StringFieldSizeExact(18, v.errmsg);
    Int32SizeExact(v.errcode);
  }

  lemma {:induction false} ParseErrcode(v: ResultValue, x: int32, t: bytes)
    ensures ParseResult(v, ErrcodeField(x) + t) == ParseResult(v.(errcode := if x == 0 then v.errcode else x), t)
  {
    if x == 0 {
      assert ErrcodeField(x) + t == t;
    } else {
      var s := ErrcodeField(x) + t;
      assert s == [8] + (Varint(SignExtend(x)) + t);
      ReadTagSingle(8, Varint(SignExtend(x)) + t);
      Int32SizeExact(x);
      ReadVarint64Of(SignExtend(x), t);
      assert ResultStep(v, s) == Got(v.(errcode := x), t);
    }
  }

  lemma {:induction false} ParseErrmsg(v: ResultValue, text: bytes, t: bytes)
    requires |text| <= INT_MAX
    ensures ParseResult(v, StringField(18, text) + t) == ParseResult(v.(errmsg := MergeString(v.errmsg, text)), t)
  {
    if text == [] {
      assert StringField(18, text) + t == t;
    } else {
      var s := StringField(18, text) + t;
      ReadRecord(18, text, t);
      assert ResultStep(v, s) == Got(v.(errmsg := text), t);
    }
  }

  lemma {:induction false} ParseEncodedResult(v: ResultValue, a: ResultValue, t: bytes)
    requires ResultSize(a) <= INT_MAX
    ensures ParseResult(v, EncodeResult(a) + t) == ParseResult(MergeResult(v, a), t)
  {
    ConcatAssoc(ErrcodeField(a.errcode), StringField(18, a.errmsg), t);
    ParseErrcode(v, a.errcode, StringField(18, a.errmsg) + t);
    ParseErrmsg(v.(errcode := if a.errcode == 0 then v.errcode else a.errcode), a.errmsg, t);
  }

  // ---------- ToolCallResponse: ResultCode result = 1; bytes output = 2 ----------

  datatype ResponseValue = ResponseValue(result: Option<ResultValue>, output: bytes)

  const EMPTY_RESPONSE := ResponseValue(None, [])

  /** The nested message a parse or a merge writes into, created on first use. */
  function MutableResult(v: ResponseValue): (r: ResultValue)
  {
    if v.result.None? then EMPTY_RESULT else v.result.value
  }

  function ReadResponseField(v: ResponseValue, tag: uint32, p: bytes): (r: Read<ResponseValue>)
    ensures r.Got? ==> |r.rest| <= |p|
  {
    if tag / 8 == 1 && tag % 256 == 10 then
      match ReadLengthDelimited(p)
      case Fail => Fail
      case Got(body, q) =>
        (match ParseResult(MutableResult(v), body)
         case None => Fail
         case Some(w) => Got(v.(result := Some(w)), q))
    else if tag / 8 == 2 && tag % 256 == 18 then
      match ReadLengthDelimited(p)
      case Fail => Fail
      case Got(text, q) => Got(v.(output := text), q)
    else
      match SkipField(tag, p)
      case Fail => Fail
      case Got(_, q) => Got(v, q)
  }

  function ResponseStep(v: ResponseValue, s: bytes): (r: Read<ResponseValue>)
    ensures r.Got? ==> |r.rest| < |s|
  {
    match ReadTag(s)
    case Fail => Fail
    case Got(tag, p) => ReadResponseField(v, tag, p)
  }

  function ParseResponse(v: ResponseValue, s: bytes): (r: Option<ResponseValue>)
    decreases |s|
  {
    if s == [] then Some(v)
    else
      match ResponseStep(v, s)
      case Fail => None
      case Got(w, rest) => ParseResponse(w, rest)
  }

  function ResultField(result: Option<ResultValue>): (r: bytes)
  {
    if result.None? then [] else Record(10, EncodeResult(result.value))
  }

  function EncodeResponse(v: ResponseValue): (r: bytes)
  {
    ResultField(v.result) + StringField(18, v.output)
  }

  function ResponseSize(v: ResponseValue): (r: nat)
    ensures v.result.Some? ==> ResultSize(v.result.value) < r
  {
    StringFieldSize(v.output)
    + if v.result.None? then 0 else 1 + LengthDelimitedSize(ResultSize(v.result.value))
  }

  function MergeResponse(a: ResponseValue, b: ResponseValue): (r: ResponseValue)
  {
    ResponseValue(if b.result.None? then a.result else Some(MergeResult(MutableResult(a), b.result.value)),
                  MergeString(a.output, b.output))
  }

  lemma {:induction false} ResponseSizeExact(v: ResponseValue)
    requires ResponseSize(v) <= INT_MAX
    ensures |EncodeResponse(v)| == ResponseSize(v)
  {
    StringFieldSizeExact(18, v.output);
    if v.result.Some? {
      ResultSizeExact(v.result.value);
      LengthDelimitedSizeExact(EncodeResult(v.result.value));
    }
  }

  lemma {:induction false} NestedField(v: ResponseValue, p: bytes, body: bytes, t: bytes, w: ResultValue)
    requires ReadLengthDelimited(p) == Got(body, t)
    requires ParseResult(MutableResult(v), body) == Some(w)
    ensures ReadResponseField(v, 10, p) == Got(v.(result := Some(w)), t)
  {
    hide ParseResult, ReadLengthDelimited, SkipField;
  }

  lemma {:induction false} ParseResultField(v: ResponseValue, result: Option<ResultValue>, t: bytes)
    requires result.Some? ==> ResultSize(result.value) <= INT_MAX
    ensures ParseResponse(v, ResultField(result) + t)
         == ParseResponse(v.(result := MergeResponse(v, ResponseValue(result, [])).result), t)
  {
    if result.None? {
      assert ResultField(result) + t == t;
    } else {
      var body := EncodeResult(result.value);
      var w := MergeResult(MutableResult(v), result.value);
      assert |body| <= INT_MAX by { ResultSizeExact(result.value); }
      assert ParseResult(MutableResult(v), body) == Some(w) by {
        ParseEncodedResult(MutableResult(v), result.value, []);
        assert body + [] == body;
      }
      ReadRecord(10, body, t);
      NestedField(v, LengthDelimited(body) + t, body, t, w);
      assert ResponseStep(v, Record(10, body) + t) == Got(v.(result := Some(w)), t);
    }
  }

  lemma {:induction false} ParseOutput(v: ResponseValue, text: bytes, t: bytes)
    requires |text| <= INT_MAX
    ensures ParseResponse(v, StringField(18, text) + t)
         == ParseResponse(v.(output := MergeString(v.output, text)), t)
  {
    if text == [] {
      assert StringField(18, text) + t == t;
    } else {
      var s := StringField(18, text) + t;
      ReadRecord(18, text, t);
      assert ResponseStep(v, s) == Got(v.(output := text), t);
    }
  }

  lemma {:induction false} ParseEncodedResponse(v: ResponseValue, a: ResponseValue, t: bytes)
    requires ResponseSize(a) <= INT_MAX
    ensures ParseResponse(v, EncodeResponse(a) + t) == ParseResponse(MergeResponse(v, a), t)
  {
    ConcatAssoc(ResultField(a.result), StringField(18, a.output), t);
    ParseResultField(v, a.result, StringField(18, a.output) + t);
    ParseOutput(v.(result := MergeResponse(v, ResponseValue(a.result, [])).result), a.output, t);
  }

  lemma {:induction false} MergeIntoEmpty(a: ResponseValue)
    ensures MergeResponse(EMPTY_RESPONSE, a) == a
  {
    if a.result.Some? { assert MergeResult(EMPTY_RESULT, a.result.value) == a.result.value; }
  }

  /** "Last One Wins", with nested messages merged: parsing two encodings back to back is merging. */
  lemma {:induction false} ConcatenationIsMerge(a: ResponseValue, b: ResponseValue)
    requires ResponseSize(a) <= INT_MAX && ResponseSize(b) <= INT_MAX
    ensures ParseResponse(EMPTY_RESPONSE, EncodeResponse(a) + EncodeResponse(b)) == Some(MergeResponse(a, b))
  {
    MergeIntoEmpty(a);
    ParseEncodedResponse(EMPTY_RESPONSE, a, EncodeResponse(b));
    ParseEncodedResponse(a, b, []);
    assert EncodeResponse(b) + [] == EncodeResponse(b);
  }

  lemma {:induction false} ResponseRoundTrip(a: ResponseValue)
    requires ResponseSize(a) <= INT_MAX
    ensures ParseResponse(EMPTY_RESPONSE, EncodeResponse(a)) == Some(a)
  {
    MergeIntoEmpty(a);
    ParseEncodedResponse(EMPTY_RESPONSE, a, []);
    assert EncodeResponse(a) + [] == EncodeResponse(a);
  }

  /** Merging is what concatenation of *encodings* does, not of arbitrary bytes: a default value
      written out explicitly overwrites when parsed, but is not seen by a merge. */
  lemma {:induction false} ExplicitDefaultIsNotMerge(v: ResultValue)
    ensures ParseResult(v, [8, 0]) == Some(v.(errcode := 0))
    ensures ParseResult(EMPTY_RESULT, [8, 0]) == Some(EMPTY_RESULT) && MergeResult(v, EMPTY_RESULT) == v
  {
    ReadTagSingle(8, [0]);
    assert [8] + [0] == [8, 0];
    assert Varint(0) + [] == [0];
    ReadVarintOfVarint(0, 10, []);
  }

  // ---------- The message objects ----------

  class ResultCode {
    var errcode: int32
    var errmsg: bytes
    var cachedSize: int32

    constructor ()
      ensures Value() == EMPTY_RESULT
    {
      errcode, errmsg, cachedSize := 0, [], 0;
    }

    function Value(): (v: ResultValue)
      reads this
    {
      ResultValue(errcode, errmsg)
    }

    method InternalParse(data: bytes) returns (ok: bool)
      modifies this
      ensures cachedSize == old(cachedSize)
      ensures ok == ParseResult(old(Value()), data).Some?
      ensures ok ==> Value() == ParseResult(old(Value()), data).value
    {
      var ptr := data;
      while ptr != []
        invariant ParseResult(old(Value()), data) == ParseResult(Value(), ptr)
        invariant cachedSize == old(cachedSize)
        decreases |ptr|
      {
        ghost var before := Value();
        var t := ReadTag(ptr);
        if t.Fail? { return false; }
        var tag := t.value;
        if tag / 8 == 1 && tag % 256 == 8 {
          var n := ReadVarint64(t.rest);
          if n.Fail? { return false; }
          errcode := ToInt32(n.value);
          assert ResultStep(before, ptr) == Got(Value(), n.rest);
          ptr := n.rest;
        } else if tag / 8 == 2 && tag % 256 == 18 {
          var str := ReadLengthDelimited(t.rest);
          if str.Fail? { return false; }
          errmsg := str.value;
          assert ResultStep(before, ptr) == Got(Value(), str.rest);
          ptr := str.rest;
        } else {
          var skipped := SkipField(tag, t.rest);
          if skipped.Fail? { return false; }
          ptr := skipped.rest;
        }
      }
      return true;
    }

    method InternalSerialize(target: bytes) returns (out: bytes)
      ensures out == target + EncodeResult(Value())
    {
      out := target;
      if errcode != 0 { out := out + ([8] + Varint(SignExtend(errcode))); }
      assert out == target + ErrcodeField(errcode);
      if |errmsg| > 0 { out := WriteBytes(18, errmsg, out); }
      ConcatAssoc(target, ErrcodeField(errcode), StringField(18, errmsg));
    }

    method ByteSizeLong() returns (total: nat)
      modifies this`cachedSize
      ensures total == ResultSize(Value()) && cachedSize == ToInt32(total)
    {
      total := 0;
      if |errmsg| > 0 { total := total + 1 + LengthDelimitedSize(|errmsg|); }
      if errcode != 0 { total := total + 1 + Int32Size(errcode); }
      cachedSize := ToInt32(total);
    }

    method MergeFrom(from: ResultCode)
      modifies this
      ensures Value() == MergeResult(old(Value()), old(from.Value()))
      ensures cachedSize == old(cachedSize)
    {
      if |from.errmsg| > 0 { errmsg := from.errmsg; }
      if from.errcode != 0 { errcode := from.errcode; }
    }
  }

  class ToolCallResponse {
    var result: ResultCode?
    var output: bytes
    var cachedSize: int32

    constructor ()
      ensures Value() == EMPTY_RESPONSE && result == null
    {
      result, output, cachedSize := null, [], 0;
    }

    function Value(): (v: ResponseValue)
      reads this, result
    {
      ResponseValue(if result == null then None else Some(result.Value()), output)
    }

    /** The nested message remembers its size from the last `ByteSizeLong`: serialization trusts it. */
    predicate SizesCached()
      reads this, result
    {
      result != null ==> result.cachedSize == ToInt32(ResultSize(result.Value()))
    }

    method MutableResultObject() returns (r: ResultCode)
      modifies this`result
      ensures r == result && output == old(output)
      ensures old(result) != null ==> r == old(result)
      ensures old(result) == null ==> fresh(r)
      ensures r.Value() == MutableResult(old(Value()))
    {
      if result == null { result := new ResultCode(); }
      r := result;
    }

    method InternalParse(data: bytes) returns (ok: bool)
      modifies this, result
      ensures result == old(result) || (old(result) == null && fresh(result))
      ensures ok == ParseResponse(old(Value()), data).Some?
      ensures ok ==> Value() == ParseResponse(old(Value()), data).value
    {
      var ptr := data;
      while ptr != []
        invariant result == old(result) || (old(result) == null && fresh(result))
        invariant ParseResponse(old(Value()), data) == ParseResponse(Value(), ptr)
        decreases |ptr|
      {
        ghost var before := Value();
        var t := ReadTag(ptr);
        if t.Fail? { return false; }
        var tag := t.value;
        if tag / 8 == 1 && tag % 256 == 10 {
          var body := ReadLengthDelimited(t.rest);
          if body.Fail? { return false; }
          var nested := MutableResultObject();
          var parsed := nested.InternalParse(body.value);
          if !parsed { return false; }
          assert ResponseStep(before, ptr) == Got(Value(), body.rest);
          ptr := body.rest;
        } else if tag / 8 == 2 && tag % 256 == 18 {
          var str := ReadLengthDelimited(t.rest);
          if str.Fail? { return false; }
          output := str.value;
          assert ResponseStep(before, ptr) == Got(Value(), str.rest);
          ptr := str.rest;
        } else {
          var skipped := SkipField(tag, t.rest);
          if skipped.Fail? { return false; }
          ptr := skipped.rest;
        }
      }
      return true;
    }

    method Clear()
      modifies this
      ensures Value() == EMPTY_RESPONSE && result == null
    {
      result, output := null, [];
    }

    method ParseFromString(data: bytes) returns (ok: bool)
      modifies this
      ensures ok == ParseResponse(EMPTY_RESPONSE, data).Some?
      ensures ok ==> Value() == ParseResponse(EMPTY_RESPONSE, data).value
    {
      Clear();
      ok := InternalParse(data);
    }

    method ByteSizeLong() returns (total: nat)
      modifies this`cachedSize, result
      ensures total == ResponseSize(Value()) && cachedSize == ToInt32(total)
      ensures Value() == old(Value()) && SizesCached()
    {
      total := 0;
      if |output| > 0 { total := total + 1 + LengthDelimitedSize(|output|); }
      if result != null {
        var nested := result.ByteSizeLong();
        total := total + 1 + LengthDelimitedSize(nested);
      }
      cachedSize := ToInt32(total);
    }

    /** The nested length prefix is the cached size, not a recomputed one. */
    method InternalSerialize(target: bytes) returns (out: bytes)
      requires SizesCached() && ResponseSize(Value()) <= INT_MAX
      ensures out == target + EncodeResponse(Value())
    {
      out := target;
      ghost var field := ResultField(Value().result);
      if result != null {
        var nested := result.InternalSerialize([]);
        assert nested == EncodeResult(result.Value());
        ResultSizeExact(result.Value());
        assert result.cachedSize == |nested|;
        out := WriteNested(10, result.cachedSize, nested, out);
      }
      assert out == target + field;
      if |output| > 0 { out := WriteBytes(18, output, out); }
      ConcatAssoc(target, field, StringField(18, output));
    }

    method SerializePartialToString() returns (out: Option<bytes>)
      modifies this`cachedSize, result
      ensures Value() == old(Value())
      ensures out == if ResponseSize(Value()) > INT_MAX then None else Some(EncodeResponse(Value()))
    {
      var size := ByteSizeLong();
      if size > INT_MAX { return None; }
      var str := InternalSerialize([]);
      assert str == EncodeResponse(Value());
      out := Some(str);
    }

    method MergeFrom(from: ToolCallResponse)
      requires from != this && (from.result != null ==> from.result != result)
      modifies this, result
      ensures Value() == MergeResponse(old(Value()), old(from.Value()))
    {
      if |from.output| > 0 { output := from.output; }
      if from.result != null {
        var nested := MutableResultObject();
        nested.MergeFrom(from.result);
      }
    }
  }
}
