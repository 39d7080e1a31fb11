/** Each message of the repository against the stream of its records: what is written, on field numbers and wire
    types, and what any bytes are read as. */
module MessageRecords {
  import opened Bytes
  import opened Wire
  import opened Records
  import opened RpcHeaders
  import opened AgentMessages
  import opened McpMessages

  /** A text field is written only if it is not empty. */
  function TextFields(number: nat, s: bytes): (r: seq<Field>)
  {
    if s == [] then [] else [Field(number, Text(s))]
  }

  lemma TextFieldsEncoded(number: nat, s: bytes)
    requires 0 < number < 16
    ensures Encode(TextFields(number, s)) == StringField(8 * number + 2, s)
  {
    if s != [] {
      EncodeOne(Field(number, Text(s)));
      assert Varint(8 * number + 2) == [8 * number + 2];
    }
  }

  // ---------- RpcHeader ----------

  function HeaderFields(v: HeaderValue): (r: seq<Field>)
  {
    TextFields(1, v.serviceName) + TextFields(2, v.methodName)
    + if v.argsSize == 0 then [] else [Field(3, Number(v.argsSize))]
  }

  /** A header is written as its set fields, in order of their numbers. */
  lemma HeaderIsRecords(v: HeaderValue)
    ensures EncodeHeader(v) == Encode(HeaderFields(v))
  {
    hide EncodeField, Varint;
    TextFieldsEncoded(1, v.serviceName);
    TextFieldsEncoded(2, v.methodName);
    var last: seq<Field> := if v.argsSize == 0 then [] else [Field(3, Number(v.argsSize))];
    assert Encode(last) == ArgsSizeField(v.argsSize) by { ArgsSizeRecord(v.argsSize); }
    EncodeConcat(TextFields(1, v.serviceName) + TextFields(2, v.methodName), last);
    EncodeConcat(TextFields(1, v.serviceName), TextFields(2, v.methodName));
  }

  lemma ArgsSizeRecord(n: uint32)
    ensures n != 0 ==> Encode([Field(3, Number(n))]) == ArgsSizeField(n)
  {
    EncodeOne(Field(3, Number(n)));
    assert Varint(24) == [24];
  }

  function HeaderWith(v: HeaderValue, f: Field): (r: HeaderValue)
  {
    if f.number == 1 && f.payload.Text? then v.(serviceName := f.payload.data)
    else if f.number == 2 && f.payload.Text? then v.(methodName := f.payload.data)
    else if f.number == 3 && f.payload.Number? then v.(argsSize := f.payload.n % 0x1_0000_0000)
    else v
  }

  lemma HeaderStepIs(v: HeaderValue, s: bytes)
    ensures HeaderStep(v, s) == match ReadField(s)
                                case Fail => Fail
                                case Got(f, q) => Got(HeaderWith(v, f), q)
  {
    if ReadTag(s).Got? {
      TextIsRead(s, 1);
      TextIsRead(s, 2);
      NumberIsRead(s, 3);
      TruncatedTwice(ReadTag(s).rest);
      SkipIsRead(s);
      hide ReadTag, ReadLengthDelimited, ReadVarint32, ReadVarint64, SkipField, ReadField;
    }
  }

  /** Any bytes are read as a header exactly if they are a stream of records; then each field has the last value
      given for its number with its wire type, the size modulo 2^32, and keeps the old one if none is given. */
  lemma {:induction false} ParseHeaderIs(v: HeaderValue, s: bytes)
    ensures ParseHeader(v, s)
         == match Split(s)
            case None => None
            case Some(fs) =>
              Some(HeaderValue(LastText(fs, 1, v.serviceName), LastText(fs, 2, v.methodName),
                               LastNumber(fs, 3, v.argsSize) % 0x1_0000_0000))
    decreases |s|
  {
    hide HeaderStep, ReadField;
    if s != [] {
      HeaderStepIs(v, s);
      match ReadField(s)
      case Fail =>
      case Got(f, rest) =>
        ParseHeaderIs(HeaderWith(v, f), rest);
        if Split(rest).Some? {
          var fs := Split(rest).value;
          LastTextFirst(f, fs, 1, v.serviceName);
          LastTextFirst(f, fs, 2, v.methodName);
          LastNumberFirst(f, fs, 3, v.argsSize);
          hide LastText, LastNumber, Split, ParseHeader;
          LastNumberTruncated(fs, 3, if f.number == 3 && f.payload.Number? then f.payload.n else v.argsSize);
        }
    }
  }

  /** Truncating what comes before changes only what is truncated anyway. */
  lemma {:induction false} LastNumberTruncated(fs: seq<Field>, number: nat, n: uint64)
    ensures LastNumber(fs, number, n % 0x1_0000_0000) % 0x1_0000_0000 == LastNumber(fs, number, n) % 0x1_0000_0000
  {
    if fs != [] { LastNumberTruncated(fs[..|fs| - 1], number, n); }
  }

  // ---------- ResultCode ----------

  function ResultFields(v: ResultValue): (r: seq<Field>)
  {
    (if v.errcode == 0 then [] else [Field(1, Number(SignExtend(v.errcode)))]) + TextFields(2, v.errmsg)
  }

  lemma ResultIsRecords(v: ResultValue)
    ensures EncodeResult(v) == Encode(ResultFields(v))
  {
    hide EncodeField, Varint;
    TextFieldsEncoded(2, v.errmsg);
    var first: seq<Field> := if v.errcode == 0 then [] else [Field(1, Number(SignExtend(v.errcode)))];
    assert Encode(first) == ErrcodeField(v.errcode) by { ErrcodeRecord(v.errcode); }
    EncodeConcat(first, TextFields(2, v.errmsg));
  }

  lemma ErrcodeRecord(x: int32)
    ensures x != 0 ==> Encode([Field(1, Number(SignExtend(x)))]) == ErrcodeField(x)
  {
    EncodeOne(Field(1, Number(SignExtend(x))));
    assert Varint(8) == [8];
  }

  function ResultWith(v: ResultValue, f: Field): (r: ResultValue)
  {
    if f.number == 1 && f.payload.Number? then v.(errcode := ToInt32(f.payload.n))
    else if f.number == 2 && f.payload.Text? then v.(errmsg := f.payload.data)
    else v
  }

  lemma ResultStepIs(v: ResultValue, s: bytes)
    ensures ResultStep(v, s) == match ReadField(s)
                                case Fail => Fail
                                case Got(f, q) => Got(ResultWith(v, f), q)
  {
    if ReadTag(s).Got? {
      NumberIsRead(s, 1);
      TextIsRead(s, 2);
      SkipIsRead(s);
      hide ReadTag, ReadLengthDelimited, ReadVarint64, SkipField, ReadField, ToInt32;
    }
  }

  /** The code is the last one given, its low 32 bits as a signed number. */
  lemma {:induction false} ParseResultIs(v: ResultValue, s: bytes)
    ensures ParseResult(v, s)
         == match Split(s)
            case None => None
            case Some(fs) =>
              Some(ResultValue(ToInt32(LastNumber(fs, 1, SignExtend(v.errcode))), LastText(fs, 2, v.errmsg)))
    decreases |s|
  {
    hide ResultStep, ReadField, ToInt32, SignExtend;
    if s != [] {
      ResultStepIs(v, s);
      match ReadField(s)
      case Fail =>
      case Got(f, rest) =>
        var w := ResultWith(v, f);
        ParseResultIs(w, rest);
        if Split(rest).Some? {
          var fs := Split(rest).value;
          LastTextFirst(f, fs, 2, v.errmsg);
          LastNumberFirst(f, fs, 1, SignExtend(v.errcode));
          if f.number == 1 && f.payload.Number? { LastNumberSigned(fs, 1, f.payload.n); }
        }
    }
  }

  lemma {:induction false} LastNumberSigned(fs: seq<Field>, number: nat, n: uint64)
    ensures ToInt32(LastNumber(fs, number, SignExtend(ToInt32(n)))) == ToInt32(LastNumber(fs, number, n))
  {
    hide ToInt32, SignExtend;
    if fs != [] { LastNumberSigned(fs[..|fs| - 1], number, n); }
  }

  // ---------- ToolCallResponse ----------

  function ResponseFields(v: ResponseValue): (r: seq<Field>)
  {
    (if v.result.None? then [] else [Field(1, Text(EncodeResult(v.result.value)))]) + TextFields(2, v.output)
  }

  lemma ResponseIsRecords(v: ResponseValue)
    ensures EncodeResponse(v) == Encode(ResponseFields(v))
  {
    hide EncodeField, Varint, EncodeResult;
    TextFieldsEncoded(2, v.output);
    var first: seq<Field> := if v.result.None? then [] else [Field(1, Text(EncodeResult(v.result.value)))];
    assert Encode(first) == ResultField(v.result) by {
      if v.result.Some? { RecordOf(1, EncodeResult(v.result.value)); }
    }
    EncodeConcat(first, TextFields(2, v.output));
  }

  lemma RecordOf(number: nat, body: bytes)
    requires 0 < number < 16
    ensures Encode([Field(number, Text(body))]) == Record(8 * number + 2, body)
  {
    EncodeOne(Field(number, Text(body)));
    assert Varint(8 * number + 2) == [8 * number + 2];
  }

  /** The nested messages with this number, read one on top of the other. */
  function NestedResult(fs: seq<Field>, result: Option<ResultValue>): (r: Option<Option<ResultValue>>)
  {
    if fs == [] then Some(result)
    else if fs[0].number == 1 && fs[0].payload.Text? then
      match ParseResult(if result.None? then ResultValue(0, []) else result.value, fs[0].payload.data)
      case None => None
      case Some(w) => NestedResult(fs[1..], Some(w))
    else NestedResult(fs[1..], result)
  }

  function ResponseWith(v: ResponseValue, f: Field): (r: Option<ResponseValue>)
  {
    if f.number == 1 && f.payload.Text? then
      match ParseResult(if v.result.None? then ResultValue(0, []) else v.result.value, f.payload.data)
      case None => None
      case Some(w) => Some(v.(result := Some(w)))
    else if f.number == 2 && f.payload.Text? then Some(v.(output := f.payload.data))
    else Some(v)
  }

  lemma ResponseStepIs(v: ResponseValue, s: bytes)
    ensures ResponseStep(v, s)
         == match ReadField(s)
            case Fail => Fail
            case Got(f, q) => if ResponseWith(v, f).None? then Fail else Got(ResponseWith(v, f).value, q)
  {
    if ReadTag(s).Got? {
      TextIsRead(s, 1);
      TextIsRead(s, 2);
      SkipIsRead(s);
      hide ReadTag, ReadLengthDelimited, SkipField, ReadField, ParseResult;
    }
  }

  /** Any bytes are read as a response exactly if they are a stream of records and each nested result is one;
      those results are merged in order, of the output the last one counts. */
  lemma {:induction false} ParseResponseIs(v: ResponseValue, s: bytes)
    ensures ParseResponse(v, s)
         == match Split(s)
            case None => None
            case Some(fs) =>
              if NestedResult(fs, v.result).None? then None
              else Some(ResponseValue(NestedResult(fs, v.result).value, LastText(fs, 2, v.output)))
    decreases |s|
  {
    hide ResponseStep, ReadField, ParseResult;
    if s != [] {
      ResponseStepIs(v, s);
      match ReadField(s)
      case Fail =>
      case Got(f, rest) =>
        if ResponseWith(v, f).Some? { ParseResponseIs(ResponseWith(v, f).value, rest); }
        if Split(rest).Some? {
          var fs := Split(rest).value;
          LastTextFirst(f, fs, 2, v.output);
          assert ([f] + fs)[1..] == fs;
        }
    }
  }

  // ---------- Tool and ListToolsResponse ----------

  lemma ToolIsRecords(v: ToolValue)
    ensures EncodeTool(v)
         == Encode(TextFields(1, v.name) + TextFields(2, v.description) + TextFields(3, v.inputSchema))
  {
    hide EncodeField, Varint;
    TextFieldsEncoded(1, v.name);
    TextFieldsEncoded(2, v.description);
    TextFieldsEncoded(3, v.inputSchema);
    EncodeConcat(TextFields(1, v.name) + TextFields(2, v.description), TextFields(3, v.inputSchema));
    EncodeConcat(TextFields(1, v.name), TextFields(2, v.description));
  }

  function ToolWith(v: ToolValue, f: Field): (r: ToolValue)
  {
    if !f.payload.Text? then v
    else if f.number == 1 then v.(name := f.payload.data)
    else if f.number == 2 then v.(description := f.payload.data)
    else if f.number == 3 then v.(inputSchema := f.payload.data)
    else v
  }

  lemma ToolStepIs(v: ToolValue, s: bytes)
    ensures ToolStep(v, s) == match ReadField(s)
                              case Fail => Fail
                              case Got(f, q) => Got(ToolWith(v, f), q)
  {
    if ReadTag(s).Got? {
      TextIsRead(s, 1);
      TextIsRead(s, 2);
      TextIsRead(s, 3);
      SkipIsRead(s);
      hide ReadTag, ReadLengthDelimited, SkipField, ReadField;
    }
  }

  lemma {:induction false} ParseToolIs(v: ToolValue, s: bytes)
    ensures ParseTool(v, s)
         == match Split(s)
            case None => None
            case Some(fs) =>
              Some(ToolValue(LastText(fs, 1, v.name), LastText(fs, 2, v.description), LastText(fs, 3, v.inputSchema)))
    decreases |s|
  {
    hide ToolStep, ReadField;
    if s != [] {
      ToolStepIs(v, s);
      match ReadField(s)
      case Fail =>
      case Got(f, rest) =>
        ParseToolIs(ToolWith(v, f), rest);
        if Split(rest).Some? {
          var fs := Split(rest).value;
          LastTextFirst(f, fs, 1, v.name);
          LastTextFirst(f, fs, 2, v.description);
          LastTextFirst(f, fs, 3, v.inputSchema);
        }
    }
  }

  function ToolsFields(tools: Tools): (r: seq<Field>)
  {
    if tools == [] then [] else [Field(1, Text(EncodeTool(tools[0])))] + ToolsFields(tools[1..])
  }

  lemma {:induction false} ToolsAreRecords(tools: Tools)
    ensures EncodeTools(tools) == Encode(ToolsFields(tools))
  {
    hide EncodeField, EncodeTool, Encode, Record;
    if tools == [] {
      EncodeNone();
    } else {
      RecordOf(1, EncodeTool(tools[0]));
      ToolsAreRecords(tools[1..]);
      EncodeConcat([Field(1, Text(EncodeTool(tools[0])))], ToolsFields(tools[1..]));
    }
  }

  lemma EncodeNone()
    ensures Encode([]) == []
  {
  }

  /** The nested messages with number 1, each read on its own. */
  function NestedTools(fs: seq<Field>, tools: Tools): (r: Option<Tools>)
  {
    if fs == [] then Some(tools)
    else if fs[0].number == 1 && fs[0].payload.Text? then
      match ParseTool(ToolValue([], [], []), fs[0].payload.data)
      case None => None
      case Some(tool) => NestedTools(fs[1..], tools + [tool])
    else NestedTools(fs[1..], tools)
  }

  function ToolsWith(v: Tools, f: Field): (r: Option<Tools>)
  {
    if f.number == 1 && f.payload.Text? then
      match ParseTool(ToolValue([], [], []), f.payload.data)
      case None => None
      case Some(tool) => Some(v + [tool])
    else Some(v)
  }

  lemma ToolsStepIs(v: Tools, s: bytes)
    ensures ToolsStep(v, s)
         == match ReadField(s)
            case Fail => Fail
            case Got(f, q) => if ToolsWith(v, f).None? then Fail else Got(ToolsWith(v, f).value, q)
  {
    if ReadTag(s).Got? {
      TextIsRead(s, 1);
      SkipIsRead(s);
      hide ReadTag, ReadLengthDelimited, SkipField, ReadField, ParseTool;
    }
  }

  /** Any bytes are read as a list of tools exactly if they are a stream of records and each with number 1 holds a
      tool; the tools are appended in order. */
  lemma {:induction false} ParseToolsIs(v: Tools, s: bytes)
    ensures ParseTools(v, s)
         == match Split(s)
            case None => None
            case Some(fs) => NestedTools(fs, v)
    decreases |s|
  {
    hide ToolsStep, ReadField, ParseTool;
    if s != [] {
      ToolsStepIs(v, s);
      match ReadField(s)
      case Fail =>
      case Got(f, rest) =>
        if ToolsWith(v, f).Some? { ParseToolsIs(ToolsWith(v, f).value, rest); }
        if Split(rest).Some? { assert ([f] + Split(rest).value)[1..] == Split(rest).value; }
    }
  }
}
