/** The generated messages of package `mcp`: `Tool` and, repeating it, `ListToolsResponse`.
    UTF-8 checks of string fields are taken to succeed. */
module McpMessages {
  import opened Bytes
  import opened Wire

  // ---------- Tool: string name = 1; string description = 2; string input_schema = 3 ----------

  datatype ToolValue = ToolValue(name: bytes, description: bytes, inputSchema: bytes)

  const EMPTY_TOOL := ToolValue([], [], [])

  /** What the parse loop does with the field that follows `tag`. */
  function ReadToolField(v: ToolValue, tag: uint32, p: bytes): (r: Read<ToolValue>)
    ensures r.Got? ==> |r.rest| <= |p|
  {
    if tag / 8 == 1 && tag % 256 == 10 then
      match ReadLengthDelimited(p)
      case Fail => Fail
      case Got(text, q) => Got(v.(name := text), q)
    else if tag / 8 == 2 && tag % 256 == 18 then
      match ReadLengthDelimited(p)
      case Fail => Fail
      case Got(text, q) => Got(v.(description := text), q)
    else if tag / 8 == 3 && tag % 256 == 26 then
      match ReadLengthDelimited(p)
      case Fail => Fail
      case Got(text, q) => Got(v.(inputSchema := text), q)
    else
      match SkipField(tag, p)
      case Fail => Fail
      case Got(_, q) => Got(v, q)
  }

  function ToolStep(v: ToolValue, s: bytes): (r: Read<ToolValue>)
    ensures r.Got? ==> |r.rest| < |s|
  {
    match ReadTag(s)
    case Fail => Fail
    case Got(tag, p) => ReadToolField(v, tag, p)
  }

  function ParseTool(v: ToolValue, s: bytes): (r: Option<ToolValue>)
    decreases |s|
  {
    if s == [] then Some(v)
    else
      match ToolStep(v, s)
      case Fail => None
      case Got(w, rest) => ParseTool(w, rest)
  }

  function EncodeTool(v: ToolValue): (r: bytes)
  {
    StringField(10, v.name) + StringField(18, v.description) + StringField(26, v.inputSchema)
  }

  function ToolSize(v: ToolValue): (r: nat)
  {
    StringFieldSize(v.name) + StringFieldSize(v.description) + StringFieldSize(v.inputSchema)
  }

  function MergeTool(a: ToolValue, b: ToolValue): (r: ToolValue)
  {
    ToolValue(MergeString(a.name, b.name), MergeString(a.description, b.description),
              MergeString(a.inputSchema, b.inputSchema))
  }

  lemma {:induction false} ToolSizeExact(v: ToolValue)
    requires ToolSize(v) <= INT_MAX
    ensures |EncodeTool(v)| == ToolSize(v)
  {
    StringFieldSizeExact(10, v.name);
    StringFieldSizeExact(18, v.description);
    StringFieldSizeExact(26, v.inputSchema);
  }

  /** The tool after field `tag` was read as `text`. */
  function SetText(v: ToolValue, tag: byte, text: bytes): (r: ToolValue)
    requires tag == 10 || tag == 18 || tag == 26
  {
    if tag == 10 then v.(name := text) else if tag == 18 then v.(description := text) else v.(inputSchema := text)
  }

  lemma {:induction false} ParseToolText(v: ToolValue, tag: byte, text: bytes, t: bytes)
    requires (tag == 10 || tag == 18 || tag == 26) && |text| <= INT_MAX
    ensures ParseTool(v, StringField(tag, text) + t) == ParseTool(if text == [] then v else SetText(v, tag, text), t)
  {
    if text == [] {
      assert StringField(tag, text) + t == t;
    } else {
      hide ReadTag, ReadLengthDelimited, SkipField;
      ReadRecord(tag, text, t);
      assert ReadToolField(v, tag, LengthDelimited(text) + t) == Got(SetText(v, tag, text), t);
      assert ToolStep(v, Record(tag, text) + t) == Got(SetText(v, tag, text), t);
    }
  }

  lemma {:induction false} ParseEncodedTool(v: ToolValue, a: ToolValue, t: bytes)
    requires ToolSize(a) <= INT_MAX
    ensures ParseTool(v, EncodeTool(a) + t) == ParseTool(MergeTool(v, a), t)
  {
    hide ParseTool, StringField;
    var f1, f2, f3 := StringField(10, a.name), StringField(18, a.description), StringField(26, a.inputSchema);
    ConcatAssoc(f1 + f2, f3, t);
    ConcatAssoc(f1, f2, f3 + t);
    ParseToolText(v, 10, a.name, f2 + (f3 + t));
    var v1 := v.(name := MergeString(v.name, a.name));
    ParseToolText(v1, 18, a.description, f3 + t);
    ParseToolText(v1.(description := MergeString(v.description, a.description)), 26, a.inputSchema, t);
  }

  // ---------- ListToolsResponse: repeated Tool tools = 1 ----------

  type Tools = seq<ToolValue>

  function ReadToolsField(v: Tools, tag: uint32, p: bytes): (r: Read<Tools>)
    ensures r.Got? ==> |r.rest| <= |p|
  {
    if tag / 8 == 1 && tag % 256 == 10 then
      match ReadLengthDelimited(p)
      case Fail => Fail
      case Got(body, q) =>
        (match ParseTool(EMPTY_TOOL, body)
         case None => Fail
         case Some(tool) => Got(v + [tool], q))
    else
      match SkipField(tag, p)
      case Fail => Fail
      case Got(_, q) => Got(v, q)
  }

  function ToolsStep(v: Tools, s: bytes): (r: Read<Tools>)
    ensures r.Got? ==> |r.rest| < |s|
  {
    match ReadTag(s)
    case Fail => Fail
    case Got(tag, p) => ReadToolsField(v, tag, p)
  }

  function ParseTools(v: Tools, s: bytes): (r: Option<Tools>)
    decreases |s|
  {
    if s == [] then Some(v)
    else
      match ToolsStep(v, s)
      case Fail => None
      case Got(w, rest) => ParseTools(w, rest)
  }

  function EncodeTools(tools: Tools): (r: bytes)
  {
    if tools == [] then [] else Record(10, EncodeTool(tools[0])) + EncodeTools(tools[1..])
  }

  function ToolsSize(tools: Tools): (r: nat)
  {
    if tools == [] then 0 else 1 + LengthDelimitedSize(ToolSize(tools[0])) + ToolsSize(tools[1..])
  }

  lemma {:induction false} ToolsSizeExact(tools: Tools)
    requires ToolsSize(tools) <= INT_MAX
    ensures |EncodeTools(tools)| == ToolsSize(tools)
  {
    if tools != [] {
      ToolSizeExact(tools[0]);
      LengthDelimitedSizeExact(EncodeTool(tools[0]));
      ToolsSizeExact(tools[1..]);
    }
  }

  lemma {:induction false} ParseOneTool(v: Tools, tool: ToolValue, t: bytes)
    requires ToolSize(tool) <= INT_MAX
    ensures ParseTools(v, Record(10, EncodeTool(tool)) + t) == ParseTools(v + [tool], t)
  {
    hide ReadTag, ReadLengthDelimited, SkipField, ParseTool;
    var body := EncodeTool(tool);
    assert |body| <= INT_MAX by { ToolSizeExact(tool); }
    assert ParseTool(EMPTY_TOOL, body) == Some(tool) by { ToolRoundTrip(tool); }
    ReadRecord(10, body, t);
    assert ReadToolsField(v, 10, LengthDelimited(body) + t) == Got(v + [tool], t);
    assert ToolsStep(v, Record(10, body) + t) == Got(v + [tool], t);
  }

  lemma {:induction false} ToolRoundTrip(tool: ToolValue)
    requires ToolSize(tool) <= INT_MAX
    ensures ParseTool(EMPTY_TOOL, EncodeTool(tool)) == Some(tool)
  {
    ParseEncodedTool(EMPTY_TOOL, tool, []);
    assert EncodeTool(tool) + [] == EncodeTool(tool);
  }

  lemma {:induction false} EncodeToolsCons(a: Tools, t: bytes)
    requires a != []
    ensures EncodeTools(a) + t == Record(10, EncodeTool(a[0])) + (EncodeTools(a[1..]) + t)
  {
    hide Record, EncodeTool;
    ConcatAssoc(Record(10, EncodeTool(a[0])), EncodeTools(a[1..]), t);
  }

  /** Reading an encoded list appends its tools, in order, to those already there. */
  lemma {:induction false} ParseEncodedTools(v: Tools, a: Tools, t: bytes)
    requires ToolsSize(a) <= INT_MAX
    ensures ParseTools(v, EncodeTools(a) + t) == ParseTools(v + a, t)
    decreases |a|
  {
    if a == [] {
      hide ParseTools;
      assert v + a == v && EncodeTools(a) + t == t;
    } else {
      hide ParseTools, EncodeTools, EncodeTool, ToolSize, Record;
      EncodeToolsCons(a, t);
      ParseOneTool(v, a[0], EncodeTools(a[1..]) + t);
      ParseEncodedTools(v + [a[0]], a[1..], t);
      ConcatAssoc(v, [a[0]], a[1..]);
      assert [a[0]] + a[1..] == a;
    }
  }

  lemma {:induction false} ToolsConcatenationIsMerge(a: Tools, b: Tools)
    requires ToolsSize(a) <= INT_MAX && ToolsSize(b) <= INT_MAX
    ensures ParseTools([], EncodeTools(a) + EncodeTools(b)) == Some(a + b)
  {
    ParseEncodedTools([], a, EncodeTools(b));
    assert [] + a == a;
    ParseEncodedTools(a, b, []);
    assert EncodeTools(b) + [] == EncodeTools(b);
  }

  // ---------- The message objects ----------

  class Tool {
    var name: bytes
    var description: bytes
    var inputSchema: bytes
    var cachedSize: int32

    constructor ()
      ensures Value() == EMPTY_TOOL
    {
      name, description, inputSchema, cachedSize := [], [], [], 0;
    }

    function Value(): (v: ToolValue)
      reads this
    {
      ToolValue(name, description, inputSchema)
    }

    method InternalParse(data: bytes) returns (ok: bool)
      modifies this
      ensures ok == ParseTool(old(Value()), data).Some?
      ensures ok ==> Value() == ParseTool(old(Value()), data).value
    {
      hide ReadTag, ReadLengthDelimited, SkipField;
      var ptr := data;
      while ptr != []
        invariant ParseTool(old(Value()), data) == ParseTool(Value(), ptr)
        decreases |ptr|
      {
        ghost var before := Value();
        var t := ReadTag(ptr);
        if t.Fail? { return false; }
        var tag := t.value;
        if tag / 8 == 1 && tag % 256 == 10 {
          var str := ReadLengthDelimited(t.rest);
          if str.Fail? { return false; }
          name := str.value;
          assert ToolStep(before, ptr) == Got(Value(), str.rest);
          ptr := str.rest;
        } else if tag / 8 == 2 && tag % 256 == 18 {
          var str := ReadLengthDelimited(t.rest);
          if str.Fail? { return false; }
          description := str.value;
          assert ToolStep(before, ptr) == Got(Value(), str.rest);
          ptr := str.rest;
        } else if tag / 8 == 3 && tag % 256 == 26 {
          var str := ReadLengthDelimited(t.rest);
          if str.Fail? { return false; }
          inputSchema := str.value;
          assert ToolStep(before, ptr) == Got(Value(), str.rest);
          ptr := str.rest;
        } else {
          var skipped := SkipField(tag, t.rest);
          if skipped.Fail? { return false; }
          ptr := skipped.rest;
        }
      }
      return true;
    }

    method InternalSerialize(target: bytes) returns (out: bytes)
      ensures out == target + EncodeTool(Value())
    {
      ghost var f1, f2, f3 := StringField(10, name), StringField(18, description), StringField(26, inputSchema);
      out := target;
      if |name| > 0 { out := WriteBytes(10, name, out); }
      assert out == target + f1;
      if |description| > 0 { out := WriteBytes(18, description, out); }
      assert out == target + (f1 + f2) by { ConcatAssoc(target, f1, f2); }
      if |inputSchema| > 0 { out := WriteBytes(26, inputSchema, out); }
      ConcatAssoc(target, f1 + f2, f3);
    }

    method ByteSizeLong() returns (total: nat)
      modifies this`cachedSize
      ensures total == ToolSize(Value()) && cachedSize == ToInt32(total)
    {
      total := 0;
      if |name| > 0 { total := total + 1 + LengthDelimitedSize(|name|); }
      if |description| > 0 { total := total + 1 + LengthDelimitedSize(|description|); }
      if |inputSchema| > 0 { total := total + 1 + LengthDelimitedSize(|inputSchema|); }
      cachedSize := ToInt32(total);
    }

    method MergeFrom(from: Tool)
      modifies this
      ensures Value() == MergeTool(old(Value()), old(from.Value()))
    {
      if |from.name| > 0 { name := from.name; }
      if |from.description| > 0 { description := from.description; }
      if |from.inputSchema| > 0 { inputSchema := from.inputSchema; }
    }
  }

  function Values(tools: seq<Tool>): (r: Tools)
    reads tools
    ensures |r| == |tools| && forall i :: 0 <= i < |r| ==> r[i] == tools[i].Value()
  {
    seq(|tools|, i requires 0 <= i < |tools| reads tools => tools[i].Value())
  }

  class ListToolsResponse {
    var tools: seq<Tool>
    var cachedSize: int32

    constructor ()
      ensures tools == []
    {
      tools, cachedSize := [], 0;
    }

    function Value(): (v: Tools)
      reads this, tools
    {
      Values(tools)
    }

    predicate SizesCached()
      reads this, tools
    {
      forall tool :: tool in tools ==> tool.cachedSize == ToInt32(ToolSize(tool.Value()))
    }

    method AddTools() returns (tool: Tool)
      modifies this`tools
      ensures fresh(tool) && tools == old(tools) + [tool] && tool.Value() == EMPTY_TOOL
    {
      tool := new Tool();
      tools := tools + [tool];
    }

    method InternalParse(data: bytes) returns (ok: bool)
      modifies this`tools
      ensures old(tools) <= tools && forall k :: |old(tools)| <= k < |tools| ==> fresh(tools[k])
      ensures ok == ParseTools(old(Value()), data).Some?
      ensures ok ==> Value() == ParseTools(old(Value()), data).value
    {
      hide ReadTag, ReadLengthDelimited, SkipField, ParseTool;
      var ptr := data;
      while ptr != []
        invariant old(tools) <= tools && forall k :: |old(tools)| <= k < |tools| ==> fresh(tools[k])
        invariant ParseTools(old(Value()), data) == ParseTools(Value(), ptr)
        decreases |ptr|
      {
        var t := ReadTag(ptr);
        if t.Fail? { return false; }
        var tag := t.value;
        if tag / 8 == 1 && tag % 256 == 10 {
          var parsed;
          parsed, ptr := ParseRun(ptr, t.rest);
          if !parsed { return false; }
        } else {
          var skipped := SkipField(tag, t.rest);
          if skipped.Fail? { return false; }
          ptr := skipped.rest;
        }
      }
      return true;
    }

    /** The inner loop: after one tool, look ahead for another of the same tag. */
    method ParseRun(ghost start: bytes, afterTag: bytes) returns (ok: bool, rest: bytes)
      requires start != [] && ReadTag(start) == Got(10, afterTag)
      modifies this`tools
      ensures old(tools) <= tools && forall k :: |old(tools)| <= k < |tools| ==> fresh(tools[k])
      ensures ok ==> |rest| < |start| && ParseTools(old(Value()), start) == ParseTools(Value(), rest)
      ensures !ok ==> ParseTools(old(Value()), start).None?
    {
      hide ReadTag, ParseTools, ToolsStep;
      var p := afterTag;
      ghost var at := start;
      while true
        invariant old(tools) <= tools && forall k :: |old(tools)| <= k < |tools| ==> fresh(tools[k])
        invariant at != [] && ReadTag(at) == Got(10, p) && |p| < |at| <= |start|
        invariant ParseTools(old(Value()), start) == ParseTools(Value(), at)
        decreases |p|
      {
        ok, p := ParseNext(at, p);
        if !ok { return false, []; }
        if p == [] { break; }
        if p[0] != 10 { break; }
        at := p;
        ReadTagSingle(10, p[1..]);
        assert p == [10] + p[1..];
        p := p[1..];
      }
      return true, p;
    }

    /** One record: `at` is the input from its tag on, `p` from its length on. */
    method ParseNext(ghost at: bytes, p: bytes) returns (ok: bool, rest: bytes)
      requires at != [] && ReadTag(at) == Got(10, p)
      modifies this`tools
      ensures |tools| == |old(tools)| + 1 && old(tools) <= tools && fresh(tools[|old(tools)|])
      ensures ok == ToolsStep(old(Value()), at).Got?
      ensures ok ==> ToolsStep(old(Value()), at) == Got(Value(), rest) && |rest| < |p|
      ensures ok ==> ParseTools(old(Value()), at) == ParseTools(Value(), rest)
      ensures !ok ==> ParseTools(old(Value()), at).None?
    {
      hide ReadTag, ReadLengthDelimited, SkipField, ParseTool;
      var body := ReadLengthDelimited(p);
      var tool := AddTools();
      if body.Fail? { return false, []; }
      ok := tool.InternalParse(body.value);
      rest := body.rest;
      assert ok ==> Value() == old(Value()) + [tool.Value()];
    }

    method ByteSizeLong() returns (total: nat)
      modifies this`cachedSize, tools
      ensures total == ToolsSize(Value()) && cachedSize == ToInt32(total)
      ensures tools == old(tools) && Value() == old(Value()) && SizesCached()
    {
      hide ToolSize, LengthDelimitedSize;
      total := 1 * |tools|;
      ghost var v := Value();
      assert v[..0] == [];
      for i := 0 to |tools|
        invariant tools == old(tools) && Value() == v
        invariant forall k :: 0 <= k < i ==> tools[k].cachedSize == ToInt32(ToolSize(v[k]))
        invariant total == |tools| - i + ToolsSize(v[..i])
      {
        var size := tools[i].ByteSizeLong();
        total := total + LengthDelimitedSize(size);
        ToolsSizeSnoc(v[..i], v[i]);
        assert v[..i] + [v[i]] == v[..i + 1];
      }
      assert v[..|tools|] == v;
      cachedSize := ToInt32(total);
    }

    method InternalSerialize(target: bytes) returns (out: bytes)
      requires SizesCached() && ToolsSize(Value()) <= INT_MAX
      ensures out == target + EncodeTools(Value())
    {
      hide EncodeTool, ToolSize, ToolsSize, LengthDelimited, Varint;
      out := target;
      ghost var v := Value();
      assert v[..0] == [];
      for i := 0 to |tools|
        invariant out == target + EncodeTools(v[..i])
      {
        ghost var done := EncodeTools(v[..i]);
        var contents := tools[i].InternalSerialize([]);
        assert contents == EncodeTool(v[i]);
        assert tools[i].cachedSize == |contents| by { ToolsSizeMember(v, i); ToolSizeExact(v[i]); }
        out := WriteNested(10, tools[i].cachedSize, contents, out);
        ConcatAssoc(target, done, Record(10, contents));
        EncodeToolsSnoc(v[..i], v[i]);
        assert v[..i] + [v[i]] == v[..i + 1];
      }
      assert v[..|tools|] == v;
    }

    method SerializePartialToString() returns (out: Option<bytes>)
      modifies this`cachedSize, tools
      ensures tools == old(tools) && Value() == old(Value())
      ensures out == if ToolsSize(Value()) > INT_MAX then None else Some(EncodeTools(Value()))
    {
      var size := ByteSizeLong();
      if size > INT_MAX { return None; }
      var str := InternalSerialize([]);
      assert str == EncodeTools(Value());
      out := Some(str);
    }

    /** A repeated field merges by copying the other message's elements to the end. */
    method MergeFrom(from: ListToolsResponse)
      requires from != this
      modifies this`tools
      ensures Value() == old(Value()) + old(from.Value())
    {
      ghost var mine := Value();
      for i := 0 to |from.tools|
        invariant |tools| == |old(tools)| + i && old(tools) <= tools
        invariant forall k :: |old(tools)| <= k < |tools| ==> fresh(tools[k])
        invariant forall k :: 0 <= k < i ==> tools[|old(tools)| + k].Value() == old(from.tools[k].Value())
      {
        var tool := AddTools();
        tool.MergeFrom(from.tools[i]);
      }
    }
  }

  lemma {:induction false} ToolsSizeSnoc(tools: Tools, last: ToolValue)
    ensures ToolsSize(tools + [last]) == ToolsSize(tools) + 1 + LengthDelimitedSize(ToolSize(last))
  {
    if tools != [] {
      assert (tools + [last])[1..] == tools[1..] + [last];
      ToolsSizeSnoc(tools[1..], last);
    }
  }

  lemma {:induction false} EncodeToolsSnoc(tools: Tools, last: ToolValue)
    ensures EncodeTools(tools + [last]) == EncodeTools(tools) + Record(10, EncodeTool(last))
  {
    if tools == [] {
      assert EncodeTools([last]) == Record(10, EncodeTool(last)) + EncodeTools([]);
    } else {
      assert (tools + [last])[1..] == tools[1..] + [last];
      EncodeToolsSnoc(tools[1..], last);
    }
  }

  lemma {:induction false} ToolsSizeMember(tools: Tools, i: nat)
    requires i < |tools|
    ensures ToolSize(tools[i]) < ToolsSize(tools)
  {
    if i > 0 { ToolsSizeMember(tools[1..], i - 1); }
  }
}
