/** The request frame: 4-byte big-endian header size, `RpcHeader`, argument bytes; and how the
    provider takes it apart and finds the method to run. */
module RpcFrame {
  import opened Bytes
  import opened RpcHeaders

  // ---------- Building the frame (the caller) ----------

  /** `htonl` and a four-byte copy. */
  function BigEndian(n: uint32): (r: bytes)
    ensures |r| == 4 && r[0] as int * 0x100_0000 + r[1] as int * 0x1_0000 + r[2] as int * 0x100 + r[3] == n
  {
    assert n == (n / 0x100) * 0x100 + n % 0x100;
    assert n / 0x100 == (n / 0x1_0000) * 0x100 + n / 0x100 % 0x100;
    assert n / 0x1_0000 == (n / 0x100_0000) * 0x100 + n / 0x1_0000 % 0x100;
    [n / 0x100_0000, n / 0x1_0000 % 0x100, n / 0x100 % 0x100, n % 0x100]
  }

  datatype FrameResult = RequestNotSerialized | HeaderNotSerialized | Frame(data: bytes)

  function HeaderFor(service: bytes, rpcMethod: bytes, args: bytes): (h: HeaderValue)
  {
    HeaderValue(service, rpcMethod, |args| % TWO_32)
  }

  /** `args` is the encoding of the request message; longer than 2^31 - 1 bytes it is not serialized. */
  function FrameOf(service: bytes, rpcMethod: bytes, args: bytes): (r: FrameResult)
  {
    if |args| > INT_MAX then RequestNotSerialized
    else
      var header := HeaderFor(service, rpcMethod, args);
      if HeaderSize(header) > INT_MAX then HeaderNotSerialized
      else
        var text := EncodeHeader(header);
        Frame(BigEndian(|text| % TWO_32) + text + args)
  }

  /** On the wire: the number of header bytes in four bytes, the most significant first, the header, the
      arguments. What does not fit 31 bits is not sent. */
  lemma FrameLayout(service: bytes, rpcMethod: bytes, args: bytes)
    ensures FrameOf(service, rpcMethod, args).RequestNotSerialized? <==> |args| > 0x7fff_ffff
    ensures FrameOf(service, rpcMethod, args).Frame? <==>
              |args| <= 0x7fff_ffff && HeaderSize(HeaderValue(service, rpcMethod, |args|)) <= 0x7fff_ffff
    ensures FrameOf(service, rpcMethod, args).Frame? ==>
              var data, text := FrameOf(service, rpcMethod, args).data, EncodeHeader(HeaderValue(service, rpcMethod, |args|));
              && |data| == 4 + |text| + |args|
              && data[0] as int * 0x100_0000 + data[1] as int * 0x1_0000 + data[2] as int * 0x100 + data[3] == |text|
              && data[4..] == text + args
  {
    hide EncodeHeader, HeaderSize, BigEndian;
    if |args| <= 0x7fff_ffff {
      var header := HeaderFor(service, rpcMethod, args);
      assert header == HeaderValue(service, rpcMethod, |args|);
      if HeaderSize(header) <= 0x7fff_ffff {
        HeaderSizeExact(header);
        var text := EncodeHeader(header);
        ConcatAssoc(BigEndian(|text|), text, args);
        SplitConcat(BigEndian(|text|), text + args);
      }
    }
  }

  method BuildFrame(service: bytes, rpcMethod: bytes, args: bytes) returns (r: FrameResult)
    ensures r == FrameOf(service, rpcMethod, args)
    ensures r.RequestNotSerialized? <==> |args| > 0x7fff_ffff
    ensures r.Frame? ==>
              var text := EncodeHeader(HeaderValue(service, rpcMethod, |args|));
              && |r.data| == 4 + |text| + |args| && r.data[4..] == text + args
              && r.data[0] as int * 0x100_0000 + r.data[1] as int * 0x1_0000 + r.data[2] as int * 0x100 + r.data[3] == |text|
  {
    hide BigEndian, EncodeHeader, HeaderSize;
    FrameLayout(service, rpcMethod, args);
    if |args| > INT_MAX { return RequestNotSerialized; }
    var rpcHeader := new RpcHeader();
    rpcHeader.serviceName := service;
    rpcHeader.methodName := rpcMethod;
    rpcHeader.argsSize := |args| % TWO_32;
    var text := rpcHeader.SerializePartialToString();
    if text.None? { return HeaderNotSerialized; }
    var sendRpcStr := BigEndian(|text.value| % TWO_32);
    sendRpcStr := sendRpcStr + text.value;
    sendRpcStr := sendRpcStr + args;
    return Frame(sendRpcStr);
  }

  // ---------- Taking it apart (the provider) ----------

  /** The first four bytes; a shorter buffer leaves the missing ones zero. */
  function HeaderSizeField(buf: bytes): (n: uint32)
  {
    ByteAt(buf, 0) * 0x100_0000 + ByteAt(buf, 1) * 0x1_0000 + ByteAt(buf, 2) * 0x100 + ByteAt(buf, 3)
  }

  lemma HeaderSizeFieldIs(buf: bytes)
    requires |buf| >= 4
    ensures HeaderSizeField(buf)
         == buf[0] as int * 0x100_0000 + buf[1] as int * 0x1_0000 + buf[2] as int * 0x100 + buf[3]
  {
  }

  function ByteAt(buf: bytes, i: nat): (b: byte)
  {
    if i < |buf| then buf[i] else 0
  }

  /** `std::string::substr`: clamps the length, throws when the start is past the end. */
  function Substr(s: bytes, pos: nat, n: nat): (r: Option<bytes>)
  {
    if pos > |s| then None else Some(s[pos..if pos + n <= |s| then pos + n else |s|])
  }

  datatype Decoded = OutOfRange | BadHeader | Call(service: bytes, rpcMethod: bytes, args: bytes)

  function DecodeFrame(buf: bytes): (r: Decoded)
  {
    var headerSize := HeaderSizeField(buf);
    match Substr(buf, 4, headerSize)
    case None => OutOfRange
    case Some(text) =>
      match ParseHeader(EMPTY_HEADER, text)
      case None => BadHeader
      case Some(header) =>
        match Substr(buf, (4 + headerSize) % TWO_32, header.argsSize)
        case None => OutOfRange
        case Some(args) => Call(header.serviceName, header.methodName, args)
  }

  lemma HeaderSizeFieldOf(n: uint32, rest: bytes)
    ensures HeaderSizeField(BigEndian(n) + rest) == n
  {
    hide BigEndian;
    HeaderSizeFieldIs(BigEndian(n) + rest);
  }

  /** The arguments that a header announces, as far as they are there. */
  function Announced(h: HeaderValue, behind: bytes): (r: Decoded)
  {
    Call(h.serviceName, h.methodName, if h.argsSize <= |behind| then behind[..h.argsSize] else behind)
  }

  /** What the provider makes of any buffer below 2^32 bytes. One under four bytes throws. A header that does not
      parse, as far as it is there, is rejected. Behind one that ends in the buffer are the arguments; one announced
      past the end throws, but for the four sizes whose sum with 4 wraps to the start of the buffer. */
  lemma DecodeExactly(buf: bytes)
    requires |buf| < 0x1_0000_0000
    ensures |buf| < 4 ==> DecodeFrame(buf) == OutOfRange
    ensures |buf| >= 4 ==>
              var size := buf[0] as int * 0x100_0000 + buf[1] as int * 0x1_0000 + buf[2] as int * 0x100 + buf[3];
              DecodeFrame(buf) == Decoding(buf, size)
  {
    hide ParseHeader, HeaderSizeField, Substr, Decoding;
    if |buf| >= 4 {
      HeaderSizeFieldIs(buf);
      DecodeSized(buf, HeaderSizeField(buf));
    } else {
      SubstrIs(buf, 4, HeaderSizeField(buf));
    }
  }

  function Decoding(buf: bytes, size: nat): (r: Decoded)
    requires 4 <= |buf| && size < 0x1_0000_0000
  {
    var fits := size <= |buf| - 4;
    match ParseHeader(HeaderValue([], [], 0), if fits then buf[4..4 + size] else buf[4..])
    case None => BadHeader
    case Some(h) =>
      if fits then Announced(h, buf[4 + size..])
      else if size < 0xffff_fffc then OutOfRange
      else Announced(h, buf[size - 0xffff_fffc..])
  }

  lemma DecodeSized(buf: bytes, size: uint32)
    requires 4 <= |buf| < 0x1_0000_0000 && HeaderSizeField(buf) == size
    ensures DecodeFrame(buf) == Decoding(buf, size)
  {
    hide ParseHeader, HeaderSizeField, Substr;
    SubstrIs(buf, 4, size);
    var text := if size <= |buf| - 4 then buf[4..4 + size] else buf[4..];
    assert Substr(buf, 4, size) == Some(text);
    var at := (4 + size) % TWO_32;
    assert at == if size < 0xffff_fffc then 4 + size else size - 0xffff_fffc;
    match ParseHeader(EMPTY_HEADER, text)
    case None =>
    case Some(h) => SubstrIs(buf, at, h.argsSize);
  }

  lemma SubstrIs(s: bytes, pos: nat, n: nat)
    ensures pos > |s| ==> Substr(s, pos, n) == None
    ensures pos <= |s| && n <= |s| - pos ==> Substr(s, pos, n) == Some(s[pos..][..n]) == Some(s[pos..pos + n])
    ensures pos <= |s| && n > |s| - pos ==> Substr(s, pos, n) == Some(s[pos..])
  {
    if pos <= |s| && n <= |s| - pos { assert s[pos..][..n] == s[pos..pos + n]; }
    if pos <= |s| { assert s[pos..|s|] == s[pos..]; }
  }

  lemma SubstrMiddle(a: bytes, b: bytes, c: bytes)
    ensures Substr(a + (b + c), |a|, |b|) == Some(b)
  {
    SplitConcat(a, b + c);
    SplitConcat(b, c);
    var s := a + (b + c);
    assert s[|a|..|a| + |b|] == s[|a|..][..|b|];
  }

  lemma SubstrParts(size: bytes, text: bytes, args: bytes, trailing: bytes)
    requires |size| == 4
    ensures Substr(size + (text + (args + trailing)), 4, |text|) == Some(text)
    ensures Substr(size + (text + (args + trailing)), 4 + |text|, |args|) == Some(args)
  {
    hide Substr;
    SubstrMiddle(size, text, args + trailing);
    SubstrMiddle(size + text, args, trailing);
    ConcatAssoc(size, text, args + trailing);
  }

  lemma DecodeParts(size: bytes, text: bytes, args: bytes, trailing: bytes, header: HeaderValue)
    requires |size| == 4 && |text| <= INT_MAX && header.argsSize == |args|
    requires HeaderSizeField(size + (text + (args + trailing))) == |text|
    requires ParseHeader(EMPTY_HEADER, text) == Some(header)
    ensures DecodeFrame(size + (text + (args + trailing))) == Call(header.serviceName, header.methodName, args)
  {
    hide ParseHeader, HeaderSizeField, Substr, DecodeFrame;
    SubstrParts(size, text, args, trailing);
    assert (4 + |text|) % 0x1_0000_0000 == 4 + |text|;
    DecodeCut(size + (text + (args + trailing)), |text|, text, header, args);
  }

  lemma DecodeCut(buf: bytes, n: nat, text: bytes, header: HeaderValue, args: bytes)
    requires HeaderSizeField(buf) == n && Substr(buf, 4, n) == Some(text)
    requires ParseHeader(EMPTY_HEADER, text) == Some(header)
    requires Substr(buf, (4 + n) % 0x1_0000_0000, header.argsSize) == Some(args)
    ensures DecodeFrame(buf) == Call(header.serviceName, header.methodName, args)
  {
    hide ParseHeader, HeaderSizeField, Substr;
  }

  /** The provider recovers from every frame the caller builds exactly what was framed, whatever follows. */
  lemma FrameRoundTrip(service: bytes, rpcMethod: bytes, args: bytes, trailing: bytes)
    requires FrameOf(service, rpcMethod, args).Frame?
    ensures DecodeFrame(FrameOf(service, rpcMethod, args).data + trailing) == Call(service, rpcMethod, args)
  {
    hide EncodeHeader, ParseHeader, HeaderSize, HeaderSizeField, DecodeFrame, BigEndian;
    var header := HeaderFor(service, rpcMethod, args);
    HeaderRoundTrip(header);
    var text := EncodeHeader(header);
    HeaderSizeExact(header);
    var size := BigEndian(|text|);
    ConcatAssoc(size + text, args, trailing);
    ConcatAssoc(size, text, args + trailing);
    HeaderSizeFieldOf(|text|, text + (args + trailing));
    DecodeParts(size, text, args, trailing, header);
  }

  // ---------- Service and method tables ----------

  /** A service object with its name and its methods as (name, descriptor) pairs, in declaration order. */
  datatype ServiceDesc = ServiceDesc(object_: nat, name: bytes, methods: seq<(bytes, nat)>)

  datatype ServiceInfo = ServiceInfo(service: nat, methodMap: map<bytes, nat>)

  type ServiceTable = map<bytes, ServiceInfo>

  /** `std::unordered_map::insert`: an existing key keeps its value. */
  function Insert<K, V>(m: map<K, V>, k: K, v: V): (r: map<K, V>)
  {
    if k in m then m else m[k := v]
  }

  /** The table after inserting `pairs` in order. */
  function InsertAll<V>(pairs: seq<(bytes, V)>): (r: map<bytes, V>)
  {
    if pairs == [] then map[]
    else
      var last := pairs[|pairs| - 1];
      Insert(InsertAll(pairs[..|pairs| - 1]), last.0, last.1)
  }

  /** The value of the first pair with that key. */
  function FirstOf<V>(pairs: seq<(bytes, V)>, key: bytes): (r: Option<V>)
  {
    if pairs == [] then None
    else if pairs[0].0 == key then Some(pairs[0].1)
    else FirstOf(pairs[1..], key)
  }

  function Lookup<V>(table: map<bytes, V>, key: bytes): (r: Option<V>)
  {
    if key in table then Some(table[key]) else None
  }

  lemma {:induction false} FirstOfSnoc<V>(pairs: seq<(bytes, V)>, last: (bytes, V), key: bytes)
    ensures FirstOf(pairs + [last], key)
         == if FirstOf(pairs, key).Some? then FirstOf(pairs, key) else FirstOf([last], key)
  {
    if pairs == [] {
      assert pairs + [last] == [last];
    } else {
      assert (pairs + [last])[1..] == pairs[1..] + [last];
      FirstOfSnoc(pairs[1..], last, key);
    }
  }

  lemma {:induction false} InsertAllKeepsFirst<V>(pairs: seq<(bytes, V)>, key: bytes)
    ensures Lookup(InsertAll(pairs), key) == FirstOf(pairs, key)
  {
    if pairs != [] {
      var init, last := pairs[..|pairs| - 1], pairs[|pairs| - 1];
      InsertAllKeepsFirst(init, key);
      FirstOfSnoc(init, last, key);
      assert init + [last] == pairs;
    }
  }

  /** The entry `NotifyService` makes for a service. */
  function Entry(service: ServiceDesc): (r: (bytes, ServiceInfo))
  {
    (service.name, ServiceInfo(service.object_, InsertAll(service.methods)))
  }

  function Entries(services: seq<ServiceDesc>): (r: seq<(bytes, ServiceInfo)>)
  {
    seq(|services|, i requires 0 <= i < |services| => Entry(services[i]))
  }

  /** The first service registered under `name`. */
  function FirstService(services: seq<ServiceDesc>, name: bytes): (r: Option<ServiceDesc>)
  {
    if services == [] then None
    else if services[0].name == name then Some(services[0])
    else FirstService(services[1..], name)
  }

  lemma {:induction false} FirstEntry(services: seq<ServiceDesc>, name: bytes)
    ensures FirstOf(Entries(services), name)
         == if FirstService(services, name).None? then None else Some(Entry(FirstService(services, name).value).1)
  {
    if services != [] {
      assert Entries(services)[1..] == Entries(services[1..]);
      FirstEntry(services[1..], name);
    }
  }

  // ---------- Dispatch ----------

  datatype Outcome =
    | Thrown
    | HeaderRejected
    | UnknownService
    | UnknownMethod
    | RequestRejected
    | Dispatched(service: nat, rpcMethod: nat, args: bytes)

  /** `requestParses` says whether the method's request message accepts the argument bytes. */
  function Dispatch(table: ServiceTable, requestParses: (nat, bytes) -> bool, buf: bytes): (r: Outcome)
  {
    match DecodeFrame(buf)
    case OutOfRange => Thrown
    case BadHeader => HeaderRejected
    case Call(service, rpcMethod, args) =>
      if service !in table then UnknownService
      else if rpcMethod !in table[service].methodMap then UnknownMethod
      else
        var desc := table[service].methodMap[rpcMethod];
        if !requestParses(desc, args) then RequestRejected
        else Dispatched(table[service].service, desc, args)
  }

  /** End to end: a framed call runs the first method of that name in the first service registered
      under that name, with the caller's bytes; and nothing runs if there is none. */
  lemma CallReachesFirstRegistration(services: seq<ServiceDesc>, requestParses: (nat, bytes) -> bool,
                                     service: bytes, rpcMethod: bytes, args: bytes)
    requires FrameOf(service, rpcMethod, args).Frame?
    ensures Dispatch(InsertAll(Entries(services)), requestParses, FrameOf(service, rpcMethod, args).data)
         == match FirstService(services, service)
            case None => UnknownService
            case Some(s) =>
              match FirstOf(s.methods, rpcMethod)
              case None => UnknownMethod
              case Some(desc) =>
                if requestParses(desc, args) then Dispatched(s.object_, desc, args) else RequestRejected
  {
    var data := FrameOf(service, rpcMethod, args).data;
    assert DecodeFrame(data) == Call(service, rpcMethod, args) by {
      FrameRoundTrip(service, rpcMethod, args, []);
      assert data + [] == data;
    }
    hide FrameOf, DecodeFrame, InsertAll, FirstOf, FirstService;
    InsertAllKeepsFirst(Entries(services), service);
    FirstEntry(services, service);
    var s := FirstService(services, service);
    if s.Some? { InsertAllKeepsFirst(s.value.methods, rpcMethod); }
  }

  class RpcProvider {
    var serviceMap: ServiceTable
    const requestParses: (nat, bytes) -> bool

    constructor (requestParses: (nat, bytes) -> bool)
      ensures serviceMap == map[] && this.requestParses == requestParses
    {
      serviceMap := map[];
      this.requestParses := requestParses;
    }

    method NotifyService(service: ServiceDesc)
      modifies this
      ensures serviceMap == Insert(old(serviceMap), Entry(service).0, Entry(service).1)
    {
      var methodMap: map<bytes, nat> := map[];
      for i := 0 to |service.methods|
        invariant methodMap == InsertAll(service.methods[..i])
      {
        methodMap := Insert(methodMap, service.methods[i].0, service.methods[i].1);
        assert service.methods[..i + 1][..i] == service.methods[..i];
      }
      assert service.methods[..|service.methods|] == service.methods;
      serviceMap := Insert(serviceMap, service.name, ServiceInfo(service.object_, methodMap));
    }

    /** The task run for each received payload. */
    method HandlePayload(recvBuf: bytes) returns (r: Outcome)
      ensures r == Dispatch(serviceMap, requestParses, recvBuf)
      ensures |recvBuf| < 4 ==> r == Thrown
      ensures r.Thrown? <==> DecodeFrame(recvBuf).OutOfRange?
      ensures r.HeaderRejected? <==> DecodeFrame(recvBuf).BadHeader?
      ensures r.UnknownService? <==> DecodeFrame(recvBuf).Call? && DecodeFrame(recvBuf).service !in serviceMap
    {
      hide ParseHeader, HeaderSizeField;
      var headerSize := HeaderSizeField(recvBuf);
      var headerStr := Substr(recvBuf, 4, headerSize);
      if headerStr.None? { return Thrown; }
      var rpcHeader := new RpcHeader();
      var ok := rpcHeader.ParseFromString(headerStr.value);
      if !ok { return HeaderRejected; }
      var args := Substr(recvBuf, (4 + headerSize) % TWO_32, rpcHeader.argsSize);
      if args.None? { return Thrown; }
      if rpcHeader.serviceName !in serviceMap { return UnknownService; }
      var info := serviceMap[rpcHeader.serviceName];
      if rpcHeader.methodName !in info.methodMap { return UnknownMethod; }
      var desc := info.methodMap[rpcHeader.methodName];
      if !requestParses(desc, args.value) { return RequestRejected; }
      return Dispatched(info.service, desc, args.value);
    }
  }
}
