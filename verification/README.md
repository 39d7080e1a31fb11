# Verified models of the RPC framework and its gateway

A Dafny project that models the parts of the repository with the most state and arithmetic and proves what they are
for. `dafny verify dfyconfig.toml` checks all of it.

- **Wire codec** (`Wire`, `RpcHeader`, `AgentMessages`, `McpMessages`, `Records`, `MessageRecords`, `RpcFrame`): the
  generated protobuf readers and writers as loops over bytes and objects with cached sizes; each message against the stream
  of records of the Protocol Buffers Encoding specification ("Base 128 Varints", "Message Structure", "Last One Wins"); the
  request frame; and the provider's tables and dispatch.
- **Correlation** (`Correlation`): callers, the response poller and the scavenger as a step system over the shared map,
  the id counter and the gauge, with a log of the closures that ran; the channel object performs those steps.
- **Consistent hashing** (`ConsistentHash`): the ring with an arbitrary hash function; which claims need
  collision-freedom is stated with each.
- **HTTP library codecs** (`Chunked`, `ChunkedGrammar`, `Multipart`, `MultipartFragments`, `MultipartCuts`,
  `MultipartForms`, `Base64`, `PercentEncoding`, `QueryString`, `QueryKeys`, `FormQueries`, `ThreadPool`): chunked transfer coding (section 7.1 of
  RFC 9112), the streaming multipart parser with its sliding buffer, base64 (section 4 of RFC 4648), percent-encoding,
  query strings, and the thread pool with its condition variable.
- **Gateway state** (`GatewayPipeline`, `ConnectionPool`, `AgentWorkflow`, `Sessions`): token login and logout over time, the MySQL
  connection pool as an allocator, and the agent's knowledge selection, tool loop and session memory under
  concurrent turns.

The classes keep the state their sources update in place, and each method is proved equal to, or a step of, a function
on values; the properties are lemmas about those functions. Byte strings are sequences of numbers below 256 (texts in
`Correlation`, `ConsistentHash`, `Base64`, `GatewayPipeline` and `AgentWorkflow`: of characters). Integer widths that can wrap - the 64-bit
counter and gauge, the 32-bit sizes, the accumulator of base64, the truncated `errcode` - are written out. Environment
steps (which response arrives, whether a connect succeeds, what the models reply, how short a read is) are parameters
or nondeterministic.

## Where the code differs from what it says

- The scavenger's comment promises more than 60 seconds; the wait is truncated to whole seconds first, so an entry goes
  after 61 (`Correlation.ExpiredExactly`).
- The JWT library rejects after `exp`; section 4.1.4 of RFC 7519 says on or after. Logout is therefore permanent except at
  one instant, and unconditionally so with a store that reports an entry through the last instant of its time
  (`GatewayPipelines.LogoutIsPermanent`). A failed read of the store counts as "not on the list".
- A content provider that writes an empty block ends the chunked writer with success but without the last chunk
  (`Chunked.EmptyWriteTruncates`).
- The multipart parser forgets a partial match of the opening boundary (`Multipart.OpeningNeedsOneChunk`), unlike a
  partial match of a later delimiter, and then loses the first item (`MultipartForms.WholeFormExactly`). Its limit on a
  header line depends on how the input is cut (`MultipartForms.FormUnderEveryCut`). So does what becomes of the bytes
  behind the closing delimiter: it drops those that come in the same piece and reads a later piece that begins with a line
  end as another part. That harms an epilogue in some cut exactly if a line end in it has behind it an empty line, a line
  that is refused or over the limit, or more than 8192 bytes without a line end (`MultipartCuts.EpilogueExactly`); and an
  input is accepted and comes to the same in all pieces exactly if none of its header lines is refused or reaches the limit
  and its epilogue is harmless (`MultipartCuts.PiecesAgreeExactly`).
- Parameter keys are written without encoding but read with decoding (`QueryString.ReservedKeyBreaks`), and a pair that
  occurs twice is read once; `QueryKeys.QueryRoundTripExactly` says which parameters survive.
- Turns of one client that overlap, and evictions between them, can forget answered turns
  (`Sessions.NothingForgottenExactly`).
- The thread pool can keep jobs for ever: those enqueued after its last worker has left (`ThreadPools.Drained`).

## Model

| member | source | states |
|---|---|---|
| `Wire.ReadVarintOfVarint` | src/rpcheader.pb.cc:175 | reading a base-128 varint off any longer input gives back the number written and stops right behind it |
| `Wire.VarintDenotes` | src/rpcheader.pb.cc:220 | what is written is one varint by "Base 128 Varints" - top bit on every byte but the last, the low seven bits of byte i weighing 128^i - it stands for the number, and no shorter one does |
| `Wire.ReadVarintExactly` | src/rpcheader.pb.cc:175 | what is read is the number that the varint at the start of any input stands for, if it is not longer than allowed |
| `Wire.ReadVarintUnended` | src/rpcheader.pb.cc:175 | and an input in which no varint ends is refused |
| `Wire.ReadersExactly` | src/rpcheader.pb.cc:154-180 | numbers are read modulo 2^64 or 2^32 from at most ten bytes, tags and sizes from at most five, and a size over 2^31 - 1 or past the end is refused |
| `Wire.SignExtend` | example/agent.pb.cc:288-293 | an int32 is written as the 64-bit number that is equal to it modulo 2^64 |
| `Records.SpecificationExamples` | src/rpcheader.pb.cc:175-220 | the two example messages of the encoding specification have the bytes given there |
| `Records.SplitOfEncode` | src/rpcheader.pb.cc:149-196 | a stream of records of any field numbers, wire types and order is taken apart into exactly those records |
| `Wire.UInt32SizeExact` | src/rpcheader.pb.cc:253-258 | the computed size of a uint32 is the number of bytes its varint takes, for every value |
| `Wire.Int32SizeExact` | example/agent.pb.cc:288-293 | the computed size of an int32 is the number of bytes written, negatives (sign-extended to 64 bits) taking ten |
| `Wire.ReadLengthDelimitedOf` | example/agent.pb.cc:729-733 | a length-delimited record is read back whole, whatever follows it |
| `RpcHeaders.RpcHeader.InternalParse` | src/rpcheader.pb.cc:149-196 | the parse loop accepts exactly what the field-by-field reading of the bytes accepts, on top of the fields already set, and leaves its result in the object |
| `RpcHeaders.RpcHeader.InternalSerialize` | src/rpcheader.pb.cc:199-229 | appends exactly the encoding of the present value: fields in order, defaults omitted |
| `RpcHeaders.RpcHeader.ByteSizeLong` | src/rpcheader.pb.cc:231-267 | returns the size of the encoding and caches it as a 32-bit value |
| `RpcHeaders.RpcHeader.SerializePartialToString` | src/mprpcchannel.cpp:76-86 | fails exactly when the message is longer than 2^31 - 1 bytes, otherwise yields the encoding |
| `RpcHeaders.RpcHeader.MergeFrom` | src/rpcheader.pb.cc:284-305 | overwrites with the non-default fields of the other message only |
| `RpcHeaders.HeaderSizeExact` | src/rpcheader.pb.cc:231-267 | the computed size is the number of bytes serialization writes |
| `RpcHeaders.ParseEncodedHeader` | src/rpcheader.pb.cc:149-229 | reading an encoded header on top of any value merges it and goes on with the bytes behind it |
| `RpcHeaders.HeaderRoundTrip` | src/rpcheader.pb.cc:149-229 | parsing undoes serializing, empty fields included |
| `MessageRecords.HeaderIsRecords` | src/rpcheader.pb.cc:199-229 | a header is written as its set fields: texts with numbers 1 and 2, a varint with number 3, in that order |
| `MessageRecords.ParseHeaderIs` | src/rpcheader.pb.cc:149-196 | any bytes are read as a header exactly if they are a stream of records, and then each field is the last value given for its number with its wire type, the size modulo 2^32; all else is skipped |
| `AgentMessages.ResultCode.InternalParse` | example/agent.pb.cc:205-245 | the parse loop against the field-by-field reading; `errcode` keeps the low 32 bits of its varint |
| `AgentMessages.ResultCode.InternalSerialize` | example/agent.pb.cc:247-271 | appends exactly the encoding, a negative `errcode` as ten bytes |
| `AgentMessages.ResultCode.ByteSizeLong` | example/agent.pb.cc:273-302 | returns the size of the encoding and sets the cached size |
| `AgentMessages.ResultCode.MergeFrom` | example/agent.pb.cc:319-333 | field-wise merge |
| `AgentMessages.ResultSizeExact` | example/agent.pb.cc:247-302 | computed size equals bytes written, for every int32 `errcode` |
| `MessageRecords.ResultIsRecords` | example/agent.pb.cc:247-271 | a result is written as its set fields: a varint with number 1, a text with number 2 |
| `MessageRecords.ParseResultIs` | example/agent.pb.cc:205-245 | any bytes are read as a result exactly if they are a stream of records; the code is the low 32 bits of the last varint with number 1, signed |
| `AgentMessages.ParseEncodedResult` | example/agent.pb.cc:205-333 | reading an encoding on top of any value is merging |
| `AgentMessages.ToolCallResponse.InternalParse` | example/agent.pb.cc:713-753 | the parse loop with the nested message: the sub-object is created once and later occurrences are merged into it |
| `AgentMessages.ToolCallResponse.InternalSerialize` | example/agent.pb.cc:755-781 | with the cached sizes in place, appends exactly the encoding, so the nested length prefix is right |
| `AgentMessages.ToolCallResponse.ByteSizeLong` | example/agent.pb.cc:783-812 | returns the size of the encoding and caches it, in the nested object too |
| `AgentMessages.ToolCallResponse.MergeFrom` | example/agent.pb.cc:829-843 | merges the nested object in place, creating it if need be |
| `AgentMessages.ResponseSizeExact` | example/agent.pb.cc:755-812 | computed size equals bytes written, nested message included |
| `MessageRecords.ResponseIsRecords` | example/agent.pb.cc:755-781 | a response is written as its nested result with number 1, if set, and its output with number 2 |
| `MessageRecords.ParseResponseIs` | example/agent.pb.cc:713-753 | any bytes are read as a response exactly if they are a stream of records whose texts with number 1 parse as results, each on top of the one before; of the output the last one counts |
| `AgentMessages.ParseEncodedResponse` | example/agent.pb.cc:713-843 | reading an encoding on top of any value is merging, and the bytes behind it are read next |
| `AgentMessages.ConcatenationIsMerge` | example/agent.pb.cc:713-843 | "last one wins" with nested messages merged: parsing two encodings back to back gives the first merged with the second, an empty nested result included |
| `AgentMessages.ResponseRoundTrip` | example/agent.pb.cc:713-781 | parsing undoes serializing |
| `AgentMessages.ExplicitDefaultIsNotMerge` | example/agent.pb.cc:213-217 | merging is what concatenation of encodings does and not of arbitrary bytes: a zero written out overwrites, a merge skips it |
| `McpMessages.Tool.InternalParse` | src/mcp.pb.cc:272-324 | the parse loop against the field-by-field reading |
| `McpMessages.Tool.InternalSerialize` | src/mcp.pb.cc:326-368 | appends exactly the encoding |
| `McpMessages.Tool.ByteSizeLong` | src/mcp.pb.cc:370-406 | returns the size of the encoding and sets the cached size |
| `McpMessages.Tool.MergeFrom` | src/mcp.pb.cc:423-442 | field-wise merge |
| `McpMessages.ToolSizeExact` | src/mcp.pb.cc:326-406 | computed size equals bytes written |
| `MessageRecords.ToolIsRecords` | src/mcp.pb.cc:326-368 | a tool is written as its set fields: name, description and schema with numbers 1, 2 and 3 |
| `MessageRecords.ParseToolIs` | src/mcp.pb.cc:272-324 | any bytes are read as a tool exactly if they are a stream of records, each field being the last text given for its number |
| `McpMessages.ParseEncodedTool` | src/mcp.pb.cc:272-442 | reading an encoding on top of any value is merging |
| `McpMessages.ListToolsResponse.InternalParse` | src/mcp.pb.cc:684-721 | the outer loop and the inner loop over a run of equal tags read what the one-field-at-a-time reading does |
| `McpMessages.ListToolsResponse.InternalSerialize` | src/mcp.pb.cc:723-743 | with the cached sizes in place, appends exactly the encoding of all tools in order |
| `McpMessages.ListToolsResponse.ByteSizeLong` | src/mcp.pb.cc:745-767 | returns the size of the encoding and leaves every nested size cached |
| `McpMessages.ListToolsResponse.MergeFrom` | src/mcp.pb.cc:784-792 | appends copies of the other message's tools |
| `McpMessages.ToolsSizeExact` | src/mcp.pb.cc:723-767 | computed size equals bytes written for any list of tools |
| `MessageRecords.ToolsAreRecords` | src/mcp.pb.cc:723-743 | a list is written as one text with number 1 for each tool |
| `MessageRecords.ParseToolsIs` | src/mcp.pb.cc:684-721 | any bytes are read as a list exactly if they are a stream of records whose texts with number 1 parse as tools; these are appended in order |
| `McpMessages.ParseEncodedTools` | src/mcp.pb.cc:684-743 | reading an encoded list appends its tools, in order |
| `McpMessages.ToolsConcatenationIsMerge` | src/mcp.pb.cc:684-792 | parsing two encoded lists back to back gives their concatenation |
| `RpcFrame.BuildFrame` | src/mprpcchannel.cpp:53-93 | the frame is the length of the encoded header in four bytes, the most significant first, that header and the arguments; arguments or a header over 2^31 - 1 bytes are reported as the two serialization failures |
| `RpcFrame.FrameLayout` | src/mprpcchannel.cpp:76-93 | the same of the function it computes, and when a frame is built at all |
| `RpcFrame.HeaderSizeFieldIs` | src/rpcprovider.cpp:149-152 | the header size is read as the sum of the first four bytes, the most significant first |
| `RpcFrame.DecodeExactly` | src/rpcprovider.cpp:149-167 | what any buffer under 2^32 bytes is taken apart into: too short or announced past the end, it throws - but for four sizes whose sum with 4 wraps; a header that does not parse is rejected; else the arguments are what follows, at most as much as announced |
| `RpcFrame.FrameRoundTrip` | src/rpcprovider.cpp:149-167 | from every frame the caller builds the provider recovers exactly service, method and arguments, whatever follows the frame |
| `RpcFrame.RpcProvider.NotifyService` | src/rpcprovider.cpp:14-39 | registers the service with all its methods, existing names keeping their entries |
| `RpcFrame.RpcProvider.HandlePayload` | src/rpcprovider.cpp:149-183 | the task for a payload: every early return and the exception of an out-of-range cut, else the method to call with its arguments |
| `RpcFrame.InsertAllKeepsFirst` | src/rpcprovider.cpp:27-38 | a table filled by `insert` holds the first value given for each key |
| `RpcFrame.CallReachesFirstRegistration` | src/rpcprovider.cpp:14-39 | end to end: a framed call runs the first method of its name in the first service registered under its name, on the caller's bytes, and nothing otherwise |
| `Correlation.KeyInjective` | src/mprpcchannel.cpp:208 | decimal ids of fewer than 2^64 calls are distinct |
| `Text.DecimalDenotes` | src/mprpcchannel.cpp:208 | and stand for the number of the call |
| `Correlation.ExpiredExactly` | src/mprpcchannel.cpp:614-617 | an entry is reclaimed from 61 full seconds on, because the wait is truncated to seconds |
| `Correlation.StepKeepsInv` | src/mprpcchannel.cpp:207-228 | every step of caller, poller and scavenger keeps the invariant on ids, map, log of closures and gauge, an insertion if it finds its key free |
| `Correlation.InsertExactly` | src/mprpcchannel.cpp:223-228 | and an insertion only then: it keeps the invariant if and only if its key is free |
| `Correlation.OverwritingRunLoses` | src/mprpcchannel.cpp:554-634 | in a run with an insertion that found its key in use, some call is pending at the end without an entry |
| `Correlation.Accounting` | src/mprpcchannel.cpp:554-634 | in every run the accounting is exact at the end if and only if every insertion found its key free; exact means: each issued id has one fate; the map holds exactly the pending calls under their own keys; each closure ran exactly once if its call was answered or timed out and never otherwise; the gauge is the size of the map minus the calls inserted but not yet counted, modulo 2^64 |
| `Correlation.AccountingUpTo2To64` | src/mprpcchannel.cpp:208 | so it is exact in every run of at most 2^64 calls |
| `Correlation.UnknownResponseIgnored` | src/mprpcchannel.cpp:562-573 | a response whose id no pending call has changes nothing |
| `Correlation.LateResponseIgnored` | src/mprpcchannel.cpp:562-573 | nor does a second response, or one after a time-out |
| `Correlation.SettledForever` | src/mprpcchannel.cpp:577-593 | an answered, dropped or timed-out call stays as it is in every continuation whose insertions find their keys free |
| `Correlation.SweepExact` | src/mprpcchannel.cpp:609-633 | one sweep removes exactly the entries that waited 61 s or more, times their calls out, lowers the gauge by their number and leaves the rest alone |
| `Correlation.DeliveredExactly` | src/mprpcchannel.cpp:554-593 | a response takes its pending call out of the map and lowers the gauge; once its bytes parse the closure runs one time, and not if they do not parse |
| `Correlation.ReclaimedExactly` | src/mprpcchannel.cpp:223-228 | a call is reclaimed, its closure run once, by a sweep that comes 61 full seconds or more after its insertion, and by no earlier one |
| `Correlation.WrapAroundLosesACall` | src/mprpcchannel.cpp:208 | and not for one call more: there is a run of 2^64 + 1 calls in which the last reuses the id of the first, still waiting, and overwrites it |
| `Correlation.MprpcChannel.NewRequestId` | src/mprpcchannel.cpp:208 | counter and id of the next call |
| `Correlation.MprpcChannel.Park` | src/mprpcchannel.cpp:223-227 | the insertion under the lock |
| `Correlation.MprpcChannel.CountUp` | src/mprpcchannel.cpp:228 | the gauge is raised after the lock is released |
| `Correlation.MprpcChannel.HandleRpcResponse` | src/mprpcchannel.cpp:554-593 | take out, lower the gauge, parse, run the closure - or drop it when the bytes do not parse |
| `Correlation.MprpcChannel.Patrol` | src/mprpcchannel.cpp:609-633 | the erasing loop over the map does what one sweep step says, whatever order the map is walked in, and runs exactly the closures that the step logs |
| `ConsistentHashing.VirtualNameInjective` | src/include/consistent_hash.h:19 | names of virtual nodes never coincide, so points are shared only through hash collisions |
| `ConsistentHashing.ConsistentHash.AddNode` | src/include/consistent_hash.h:14-23 | the loop puts the node on all its points, overwriting |
| `ConsistentHashing.ConsistentHash.RemoveNode` | src/include/consistent_hash.h:25-34 | the loop erases all the node's points, whoever holds them |
| `ConsistentHashing.ConsistentHash.GetNode` | src/include/consistent_hash.h:36-52 | first point above the hash, else the first of all: that is the owner of the point p minimising (p - hash - 1) mod 2^32; the empty string on an empty ring |
| `ConsistentHashing.UpperBound` | src/include/consistent_hash.h:44 | the least key above the hash, if any |
| `ConsistentHashing.AddMovesOnlyToNew` | src/include/consistent_hash.h:14-23 | after adding a node every key has its old owner or the new node, even with collisions |
| `ConsistentHashing.RemoveMovesOnlyOwn` | src/include/consistent_hash.h:25-34 | if no point of the node is shared, removing it moves only keys it owned |
| `ConsistentHashing.RemoveMovesOnlyOwnExactly` | src/include/consistent_hash.h:25-34 | for every ring: only keys of the removed node move if and only if, at each point taken from another node, the next point left is that other node's too |
| `ConsistentHashing.SharedPointDisturbsOthers` | src/include/consistent_hash.h:32 | with a shared point the claim fails: a concrete ring of three nodes |
| `ConsistentHashing.RemoveUndoesAdd` | src/include/consistent_hash.h:14-34 | removing undoes adding if and only if the node's points were free |
| `ConsistentHashing.NoKeyForRemoved` | src/include/consistent_hash.h:25-34 | right after its removal a node owns no key, whatever came before and whatever collides |
| `ConsistentHashing.HistoryIndependent` | src/include/consistent_hash.h:14-34 | without collisions the ring holds exactly the points of the nodes whose last operation was an addition |
| `ConsistentHashing.SameNodesSameRing` | src/include/consistent_hash.h:14-34 | so two histories with the same live nodes end in the same ring |
| `Chunked.FromIToHex` | src/include/httplib.h:2219-2227 | the digit loop computes the hexadecimal text of every number |
| `Chunked.HexNumberOfHex` | src/include/httplib.h:2219-2227 | and that text denotes the number |
| `Chunked.StrtoulOfHex` | src/include/httplib.h:3791-3800 | `strtoul` on a chunk-size line reads back the size written |
| `Chunked.HexRow` | src/include/httplib.h:2219-2227 | digits are written from the row 0-9a-f and read from either row, each with its value |
| `ChunkedGrammar.WrittenIsChunkedBody` | src/include/httplib.h:4022-4090 | what is written up to `done` is a chunked body by the grammar of section 7.1 of RFC 9112: sizes of hexadecimal digits only, line ends of two bytes, carrying exactly the data |
| `ChunkedGrammar.ChunkedBodyIsRead` | src/include/httplib.h:3782-3834 | and every such body, with sizes in any spelling, is read: exactly its data, and nothing behind it |
| `ChunkedGrammar.TrailersRead` | src/include/httplib.h:3826-3834 | trailer lines of up to 8192 bytes, line ends included, are skipped up to the empty one; a longer one has the body refused |
| `Chunked.ReadRendered` | src/include/httplib.h:3782-3834 | the reader delivers exactly the data of the chunks and stops right behind the final CRLF, for every list of writes ended by `done`, whatever follows |
| `Chunked.ReadUnterminated` | src/include/httplib.h:3782-3834 | without a last chunk the reader delivers the data and reports failure |
| `Chunked.WriterReaderRoundTrip` | src/include/httplib.h:4022-4121 | for every provider, the reader accepts what the writer's loop wrote if and only if `done` was reached, and then has exactly the data written |
| `Chunked.LoopExactly` | src/include/httplib.h:4091-4120 | what the writer's loop performs and reports: all actions up to the first round after which it does not go on - the provider gives up, or its last action is `done` or an empty write - or which finds the server shutting down; success unless the provider gave up |
| `Chunked.SuccessMissesDone` | src/include/httplib.h:4106-4120 | success is reported without the last chunk if and only if some round finds the server shutting down, or goes on without `done` and writes an empty block last, after rounds that go on without `done` and, if they write, write data last |
| `Chunked.SuccessReachesDone` | src/include/httplib.h:4106-4120 | so a provider that never writes an empty block and is not interrupted reaches `done` |
| `Chunked.EmptyWriteTruncates` | src/include/httplib.h:4029-4031 | an empty write ends the loop with success and no last chunk, so the reader fails |
| `Chunked.ChunkedWriter.WriteContentChunked` | src/include/httplib.h:4022-4121 | the loop sends exactly what the performed sink actions render to and returns the matching status |
| `Chunked.StreamLineReader.Getline` | src/include/httplib.h:2519-2543 | one line off the stream, up to and including LF, however long and however the stream delivers it |
| `Chunked.StreamLineReader.Append` | src/include/httplib.h:2545-2556 | the switch from the fixed to the growable buffer loses nothing |
| `Chunked.ReadContentWithLength` | src/include/httplib.h:3729-3749 | exactly the given number of bytes however short the reads, or failure with what there was |
| `Chunked.ReadContentChunked` | src/include/httplib.h:3782-3834 | the reader loop does on a live stream what the reading function says of its bytes |
| `Multipart.FindUnique` | src/include/httplib.h:4459-4480 | the found index is the first occurrence |
| `Multipart.BodyIgnoresFragmentation` | src/include/httplib.h:4367-4389 | for every way of cutting the input: emitted bytes and window together are the bytes received until the delimiter is complete, and then exactly the bytes before its first occurrence were emitted |
| `Multipart.ParserScansBody` | src/include/httplib.h:4367-4389 | over successive `parse` calls states, windows, content and the point where the parser goes on follow that scan |
| `Multipart.FindAcross` | src/include/httplib.h:4380-4385 | keeping as many bytes as the delimiter has cannot hide an occurrence that later bytes complete |
| `Multipart.OpeningNeedsOneChunk` | src/include/httplib.h:4289-4296 | over successive `parse` calls the opening boundary is recognised exactly when one single chunk holds all of it, and parsing goes on behind the first such: a partial match is thrown away |
| `Multipart.OpeningCutIsLost` | src/include/httplib.h:4290-4291 | so the same bytes are accepted whole and ignored when cut anywhere inside it |
| `Multipart.FormRoundTrip` | src/include/httplib.h:4582-4594 | the serialized form is the text of section 5.1.1 of RFC 2046, byte for byte, and parsing a serialized form delivers exactly its items in order and ends valid |
| `Multipart.OpeningText` | src/include/httplib.h:4289-4296 | bytes 45 45, the boundary and 13 10 are where a form begins |
| `Multipart.DelimiterText` | src/include/httplib.h:4367-4389 | 13 10 45 45 and the boundary are where a content ends |
| `Multipart.BoundaryStepExactly` | src/include/httplib.h:4390-4410 | behind that, 13 10 begins the next part, 45 45 ends the form and drops what came with it, anything else waits |
| `Multipart.MultipartFormDataParser.BufFind` | src/include/httplib.h:4459-4480 | skip to the next first byte and compare: the first occurrence in the window, or its length |
| `Multipart.MultipartFormDataParser.BufAppend` | src/include/httplib.h:4482-4498 | sliding the window to the front, growing and copying appends the bytes to the window |
| `Multipart.MultipartFormDataParser.BufErase` | src/include/httplib.h:4500 | drops the front of the window |
| `Multipart.MultipartFormDataParser.Opening` | src/include/httplib.h:4289-4296 | state 0 does the opening step |
| `Multipart.MultipartFormDataParser.Headers` | src/include/httplib.h:4302-4366 | state 2 does the header step, with its limit on the line length and its refusal of a bad line |
| `Multipart.MultipartFormDataParser.Body` | src/include/httplib.h:4367-4389 | state 3 does the body step |
| `Multipart.MultipartFormDataParser.Boundary` | src/include/httplib.h:4390-4410 | state 4 does the step behind a delimiter: next part, or end and epilogue |
| `Multipart.MultipartFormDataParser.Parse` | src/include/httplib.h:4282-4418 | one call runs the states until more input is needed or the input is refused, like the transition function on the window |
| `MultipartFragments.RunMore` | src/include/httplib.h:4287-4416 | for the whole loop past the opening boundary: stopping for more bytes and then going on comes to what going on at once comes to, unless going on is refused |
| `MultipartFragments.SmoothCut` | src/include/httplib.h:4287-4416 | if the whole input ahead has header lines below the limit and a harmless epilogue - behind each line end in it, no header block would be refused or end - one call on any front part of it is accepted, and closes the form with a harmless rest or leaves such an input |
| `MultipartFragments.PiecesAgree` | src/include/httplib.h:4282-4418 | such an input is accepted in whatever pieces it comes, with the header blocks and content, the closing, and short of that the whole state, that it comes to in one piece |
| `MultipartCuts.PiecesAgreeExactly` | src/include/httplib.h:4282-4418 | and only such: for every input to a parser past the opening boundary, as any accepted call leaves it, all ways of cutting it are accepted and come to what the whole does if and only if, with the bytes held back, its header lines are taken and below the limit and its epilogue is harmless |
| `MultipartCuts.RunSettles` | src/include/httplib.h:4287-4416 | a call that is accepted leaves nothing, or bytes of which the same state can make nothing yet |
| `MultipartCuts.EpilogueExactly` | src/include/httplib.h:4390-4410 | from the closing hyphens on, every cut is accepted, ends closed and delivers nothing more if and only if behind each line end of the epilogue there comes a non-empty header line that is taken and shorter than 8192 bytes, or at most 8192 bytes without a line end |
| `MultipartCuts.EpilogueCut` | src/include/httplib.h:4397-4405 | the cut that does the harm otherwise: before that line end, so that the first piece is closed and dropped there and the next one opens a part |
| `MultipartForms.FormInPieces` | src/include/httplib.h:4282-4418 | behind its opening boundary a serialized form with header lines below the limit is accepted under every cut, delivers exactly its items and finishes |
| `MultipartForms.FormUnderEveryCut` | src/include/httplib.h:4303-4304 | it is accepted under every cut if and only if every header line of every item is shorter than 8192 bytes |
| `MultipartForms.LongLineRefused` | src/include/httplib.h:4303-4304 | the cut that has a form with a longer line refused: before the line and inside its line end |
| `MultipartForms.WholeFormExactly` | src/include/httplib.h:4282-4418 | of a whole form with such lines, however it is cut, all items are delivered if and only if the first piece holds the whole opening boundary |
| `MultipartForms.FeedAllTaken` | src/include/httplib.h:4282-4418 | whatever is fed, the tokens delivered and the window never stand for more bytes than came in |
| `MultipartFragments.LimitDependsOnCut` | src/include/httplib.h:4303-4304 | the limit on a header line looks at the first line of a piece only |
| `MultipartFragments.EpilogueDependsOnCut` | src/include/httplib.h:4390-4408 | an example of an epilogue that is not harmless: a refused header line between two line ends is dropped in the same piece as the closing hyphens and refused in the next |
| `Base64.Base64Encode` | src/include/httplib.h:2263-2289 | the bit accumulator, wrapping at 32 bits, computes the group encoding of section 4 of RFC 4648 for every byte string |
| `Base64.EncodeExactly` | src/include/httplib.h:2263-2289 | three bytes become the symbols of the four sextets of their 24 bits, the most significant first; one or two are filled up with zero bits and padded |
| `Base64.SymbolIs` | src/include/httplib.h:2263-2289 | the symbols are A-Z, a-z, 0-9, + and /, in that order |
| `Base64.TestVectors` | src/include/httplib.h:2263-2289 | the vectors "f", "fo" and "foo" of section 10 of RFC 4648 |
| `Base64.BitsRead` | src/include/httplib.h:2273-2282 | only the last two bytes can be read off the accumulator, so the wrap-around never shows |
| `Base64.DecodeOfEncode` | src/include/httplib.h:2263-2289 | the standard decoder undoes the encoding |
| `Base64.EncodeOfDecode` | src/include/httplib.h:2263-2289 | and accepts nothing but encodings |
| `PercentEncoding.EncodeQueryParam` | src/include/httplib.h:2342-2361 | the loop computes the percent-encoding |
| `PercentEncoding.EncodeByteExactly` | src/include/httplib.h:2342-2361 | letters, digits and nine marks are written as they are, every other byte as a per cent sign and its two digits in upper case |
| `PercentEncoding.DecodeUrlText` | src/include/httplib.h:2395-2430 | the loop with its jumps over %XX and %uXXXX computes the decoding |
| `PercentEncoding.DecodeExactly` | src/include/httplib.h:2395-2430 | at each place of any text: %XX is the byte with these digits, %uXXXX the encoding of the character with these, a plus sign a space if that is asked for, anything else itself |
| `PercentEncoding.DecodeOfForm` | src/include/httplib.h:2395-2430 | decoding undoes the encoding of forms, in which a space is sent as a plus sign, on every byte string; without the setting each space comes back as the plus sign |
| `PercentEncoding.UnicodeEscape` | src/include/httplib.h:2402-2411 | what %u and four digits decode to is read back by RFC 3629 as that character; a surrogate decodes to nothing |
| `PercentEncoding.Utf8Examples` | src/include/httplib.h:2229-2259 | the characters of the examples in section 7 of RFC 3629 |
| `PercentEncoding.FromHexToI` | src/include/httplib.h:2199-2217 | reads that many hexadecimal digits or fails, at the end of the string too |
| `PercentEncoding.Utf8WellFormed` | src/include/httplib.h:2229-2259 | every character is written in its well-formed encoding (section 3 of RFC 3629), and surrogates and numbers out of range as nothing |
| `PercentEncoding.DecodeOfEncode` | src/include/httplib.h:2342-2430 | decoding undoes encoding on every byte string under either reading of the plus sign |
| `QueryString.Trim` | src/include/httplib.h:2450-2461 | trimming a piece inside a larger buffer gives the trimmed piece or an empty range, though both ends may run past it |
| `QueryString.Split` | src/include/httplib.h:2473-2491 | the callback gets the non-empty trimmed pieces in order |
| `QueryString.EmplaceSorted` | src/include/httplib.h:4188 | the multimap stays in key order and gains exactly the new pair |
| `QueryString.LessExactly` | src/include/httplib.h:4188 | that order: the smaller byte at the first difference, short of one the shorter key |
| `QueryString.ParamsToQueryStr` | src/include/httplib.h:4158-4168 | the loop writes the query |
| `FormQueries.QueryWritten` | src/include/httplib.h:4158-4168 | the query is keys as they are, byte 61, encoded values, with byte 38 between the pairs |
| `QueryString.ParseQueryText` | src/include/httplib.h:4170-4191 | the nested splits with their cache compute the parameters |
| `FormQueries.ParseOfForm` | src/include/httplib.h:4170-4191 | what a form sends, spaces as plus signs, is read back whole: each pair once, whatever bytes its key and value have, as long as the key is not empty |
| `FormQueries.EmplaceAllSorted` | src/include/httplib.h:4188 | the result is in key order and has exactly those pairs |
| `FormQueries.KeyValueOfParts` | src/include/httplib.h:4178-4187 | of the parts that equals signs make, the first is the key and the last of the others the value |
| `FormQueries.MiddleLost` | src/include/httplib.h:4178-4187 | so "a=b=c" is the key "a" with the value "c" |
| `QueryString.FirstAndLast` | src/include/httplib.h:4178-4185 | of a piece the first part is the key and the last of the others the value |
| `QueryString.ParseOfToQuery` | src/include/httplib.h:4158-4191 | reading a written query gives each pair once, in order, for keys that survive being written as they are |
| `QueryKeys.QueryRoundTripExactly` | src/include/httplib.h:4158-4191 | parameters survive being written and read back if and only if no pair is there twice and every key is not empty, has no ampersand or equals sign, no blank at its ends, no plus sign and no whole %XX or %uXXXX escape |
| `QueryKeys.OnePairExactly` | src/include/httplib.h:4158-4191 | a single parameter survives if and only if its key is of that kind |
| `PercentEncoding.LiteralExactly` | src/include/httplib.h:2395-2430 | a text decodes to itself if and only if it has no plus sign and no whole escape |
| `QueryKeys.DecodeMeasure` | src/include/httplib.h:2395-2430 | decoding never raises the measure of a text - two for a byte, three for a plus sign - and keeps it only if it changes nothing |
| `QueryString.UnreservedKeyOk` | src/include/httplib.h:4163 | non-empty keys of unreserved characters survive |
| `QueryString.ReservedKeyBreaks` | src/include/httplib.h:4163 | a key is not encoded: with an ampersand in it one parameter comes back as two |
| `ThreadPools.StepKeepsInv` | src/include/httplib.h:603-652 | every step keeps order, single execution, the conditions for leaving, and that no wake-up is lost |
| `ThreadPools.FirstInFirstOutOnce` | src/include/httplib.h:603-648 | in every interleaving jobs leave in the order in which they came; each taken job is running on one worker or has finished once |
| `ThreadPools.Drained` | src/include/httplib.h:612-652 | once all of at least one worker have left, exactly the jobs enqueued before the last one left have finished, once each, all those before the shutdown among them; the queue is empty if and only if nothing was enqueued after that |
| `ThreadPools.NoLostWakeUp` | src/include/httplib.h:609-640 | while jobs are queued and a worker is left, a worker or a notification can move |
| `ThreadPools.DrainTerminates` | src/include/httplib.h:612-625 | after a shutdown without new arrivals only a bounded number of steps is possible |
| `ThreadPools.StuckMeansDrained` | src/include/httplib.h:612-625 | and when none is possible any more every worker has left, so the joins return |
| `ThreadPools.ThreadPool.Enqueue` | src/include/httplib.h:603-610 | appends the job |
| `ThreadPools.ThreadPool.SetShutdown` | src/include/httplib.h:612-617 | sets the flag under the lock |
| `ThreadPools.ThreadPool.WorkerLook` | src/include/httplib.h:634-644 | the locked part of the worker: sleep, leave, or the front job |
| `ConnectionPools.StepKeepsInv` | example/db/ConnectionPool.cpp:47-93 | every step keeps the connections disjoint, duplicate-free and counted |
| `ConnectionPools.Conservation` | example/db/ConnectionPool.cpp:29-93 | in every interleaving no connection is in two places or lost, the counter is their number and at most 15, and the pool has grown only as far as simultaneous demand made it |
| `ConnectionPools.FirstComeFirstServed` | example/db/ConnectionPool.cpp:47-93 | in every run the borrowers get, in order, what was in the queue and then what was put there - new connections below the limit of 15 that connect, and those given back; the queue keeps the rest |
| `ConnectionPools.ReleaseExactly` | example/db/ConnectionPool.cpp:89-93 | giving back keeps the invariant if and only if that connection was out |
| `ConnectionPools.ConnectionPool.constructor` | example/db/ConnectionPool.cpp:28-35 | the initial connects, failed ones left out |
| `ConnectionPools.ConnectionPool.ProduceConnection` | example/db/ConnectionPool.cpp:54-61 | connects below the limit only |
| `ConnectionPools.ConnectionPool.GetConnection` | example/db/ConnectionPool.cpp:67-86 | hands out the front connection, or nothing when the wait ended by time, whatever the queue holds by then |
| `ConnectionPools.ConnectionPool.ReleaseConnection` | example/db/ConnectionPool.cpp:89-93 | puts a borrowed connection at the back |
| `GatewayPipelines.TicketOf` | example/caller/GatewayPipeline.h:84-88 | token and content of a bearer request are cut apart exactly, whatever the content |
| `GatewayPipelines.PassedExactly` | example/caller/GatewayPipeline.h:79-112 | a bearer request is answered by anything but a refusal if and only if its token verifies, the time is from its issue through its expiry, and no readable entry that is still alive says that it was logged out; then it passes with its content, or is logged out for 7200 s |
| `GatewayPipelines.OthersStopped` | example/caller/GatewayPipeline.h:42-112 | every other request: what it is answered, and that it changes no blacklist entry |
| `GatewayPipelines.IssuedIsGood` | example/caller/GatewayPipeline.h:42-112 | in every run without a logout of its text a token that a login gave out gets requests past the bearer filter if and only if they come by the last whole second of its 7200, unless the same text was logged out before that login |
| `GatewayPipelines.GatewayPipeline.LoginFilter` | example/caller/GatewayPipeline.h:42-66 | handles logins and lets everything else by unchanged |
| `GatewayPipelines.GatewayPipeline.JwtAuthFilter` | example/caller/GatewayPipeline.h:73-112 | lets a request by exactly if its token decodes and verifies, the time is within its dates, and it is not reported blacklisted, replacing input and question; otherwise answers 401 or 403 |
| `GatewayPipelines.GatewayPipeline.LogoutFilter` | example/caller/GatewayPipeline.h:118-134 | blacklists the token of a logout for 7200 s, or reports the failed write |
| `GatewayPipelines.GatewayPipeline.Process` | example/caller/GatewayPipeline.h:149-156 | the filters in order, each able to stop, do what the request step says of state and reply |
| `GatewayPipelines.RunKeeps` | example/caller/GatewayPipeline.h:50-131 | an issued token stays bounded by its issue and a logged-out one stays blacklisted to its end in every run |
| `GatewayPipelines.LogoutIsPermanent` | example/caller/GatewayPipeline.h:50-131 | in every run a token that was issued and then logged out gets past the filter only if the store cannot be read, or at the one instant when it expires and its entry lapses together; never with a readable store that keeps entries through their last instant |
| `GatewayPipelines.OtherTextsStay` | example/caller/GatewayPipeline.h:118-134 | the blacklist goes by the text of a token: a run without a logout of that very text leaves the verdict on it as it was, whatever else was logged out |
| `GatewayPipelines.GapNeedsInstantLogout` | src/include/jwt-cpp/include/jwt-cpp/jwt.h:2633-2635 | that instant exists only for a token logged out in the nanosecond of its issue, on a whole second |
| `GatewayPipelines.LogoutGap` | src/include/jwt-cpp/include/jwt-cpp/jwt.h:3657-3663 | a concrete run in which it happens with a store that drops an entry at its last instant: the library rejects strictly after `exp` |
| `AgentWorkflows.Sort` | example/caller/AgentWorkflow.h:97-99 | some descending order of the same hits |
| `AgentWorkflows.FindCliff` | example/caller/AgentWorkflow.h:105-111 | the loop finds the first largest drop, or the first min(3, n) when all drops are under 0.05 |
| `AgentWorkflows.BuildRagContext` | example/caller/AgentWorkflow.h:97-123 | the chosen hits are a prefix of the descending order, up to the first past the cliff, at most 0.45 or too long, numbered by rank |
| `AgentWorkflows.ChosenUnique` | example/caller/AgentWorkflow.h:105-122 | those conditions determine the prefix |
| `AgentWorkflows.CliffExactly` | example/caller/AgentWorkflow.h:105-111 | the place of the cliff in numbers |
| `AgentWorkflows.ChosenExactly` | example/caller/AgentWorkflow.h:113-122 | the score, the budget and the reason to stop in numbers |
| `AgentWorkflows.RenderExactly` | example/caller/AgentWorkflow.h:117-119 | the context line by line: rank from 1 on in brackets, space, text, line feed |
| `AgentWorkflows.ContextBounded` | example/caller/AgentWorkflow.h:113-120 | at most 1006 bytes for at most 15 hits |
| `AgentWorkflows.SavedSlides` | example/caller/AgentWorkflow.h:308-315 | saving slides the window: the system prompt and the last nine exchanges, never more than 19 messages |
| `AgentWorkflows.HistoryExactly` | example/caller/AgentWorkflow.h:308-315 | message for message: the system prompt, then question and answer of each of the last nine exchanges, oldest first |
| `Sessions.StoreHolds` | example/caller/AgentWorkflow.h:138-316 | in every interleaving of loads and saves of all clients' turns the store holds, for each client, the system prompt and the last nine of: the exchanges that the turn which saved last had seen at its load, and its own |
| `Sessions.NothingForgottenExactly` | example/caller/GatewayServer.h:123-149 | no answered turn of a client is forgotten if and only if every saving turn of it loaded after its previous save and found its memory there, and its entry was not evicted after the last |
| `Sessions.WindowExactly` | example/caller/AgentWorkflow.h:308-315 | an entry holds the system prompt and the last nine of all the client's answered exchanges if and only if these are the last nine of those it stands for |
| `Sessions.LastSavesRemembered` | example/caller/GatewayServer.h:123-149 | if each of the client's last n saves loaded after the save before it and found its memory there, the last n exchanges are there, whatever was forgotten earlier |
| `Sessions.SessionWindow` | example/caller/AgentWorkflow.h:308-315 | with n = 9 the store holds the system prompt and the last nine of all its answered exchanges |
| `Sessions.SequentialWindow` | example/caller/AgentWorkflow.h:138-316 | in particular turn after turn and without eviction, whatever other clients do: after n answered turns the last min(n, 9) exchanges |
| `Sessions.EvictedEntryRevives` | example/caller/AgentWorkflow.h:138-148 | an entry evicted while a turn is under way comes back with that turn's save |
| `Sessions.OverlapForgetsATurn` | example/caller/AgentWorkflow.h:138-148 | two turns of one client that both load before either saves: the first to save is forgotten |
| `AgentWorkflows.AnsweredExactly` | example/caller/AgentWorkflow.h:153-180 | a turn is answered if and only if an answer comes within six replies, after nothing but tool calls |
| `AgentWorkflows.EndsExactly` | example/caller/AgentWorkflow.h:153-180 | the other three ends: no reply and an unreadable one, at the first reply that is no tool call, and six tool calls |
| `AgentWorkflows.ToolTalkExactly` | example/caller/AgentWorkflow.h:222-303 | the model hears of each call and right behind it of that call's own result, with advice exactly if it is one of the first three failures and the reviewing model answered |
| `AgentWorkflows.RetriesExactly` | example/caller/AgentWorkflow.h:258-263 | the reviewing model is asked about the first three failures of a turn and no other |
| `AgentWorkflows.AgentWorkflow.LoadSessionMemory` | example/caller/AgentWorkflow.h:138-148 | the stored history or a fresh one, and the prompt behind it |
| `AgentWorkflows.AgentWorkflow.InvokeRpcTool` | example/caller/AgentWorkflow.h:222-303 | the retry count and whether advice is wrapped around the result |
| `AgentWorkflows.AgentWorkflow.ExecuteReActLoop` | example/caller/AgentWorkflow.h:153-180 | ends as the outcome function says, with at most six tool calls, the conversation of calls and results in order, and a save only for an answer |
| `AgentWorkflows.AgentWorkflow.SaveSessionMemory` | example/caller/AgentWorkflow.h:308-315 | pushes the exchange, drops the oldest one past twenty messages, stores |
| `AgentWorkflows.AgentWorkflow.Run` | example/caller/AgentWorkflow.h:72-80 | with other turns changing the store between load and save: an answer is stored behind the history that was loaded, anything else leaves the store to the others |

## Left out

- Wire.SkipField: unknown fields are skipped, not kept for re-serialization, and group wire types end the parse with
  failure; keeping them belongs to the protobuf library, which is not part of this model.
- RpcHeaders.RpcHeader.InternalParse: unknown fields are skipped as above.
- AgentMessages.ResultCode.InternalParse: unknown fields are skipped as above.
- AgentMessages.ToolCallResponse.InternalParse: unknown fields are skipped as above.
- McpMessages.ListToolsResponse.InternalParse: unknown fields are skipped as above.
- McpMessages.Tool.InternalParse: unknown fields are skipped as above, and the three string fields are taken to be valid UTF-8.
- Wire.ReadVarintOfVarint: readers of the protobuf library itself (its buffering and its internal size margins) are not
  part of this model; the primitives follow the encoding specification.
- Arenas, descriptors, reflection, swap and accessors.
- AgentMessages.ToolCallResponse.MergeFrom: merging a message into itself or sharing a nested object is excluded, as the
  generated code's own check excludes it.
- RpcFrame.RpcProvider.HandlePayload: the reply path (`SendRpcResponse`), ZeroMQ envelopes and ZooKeeper registration are
  I/O; whether a request message parses is a parameter.
- Correlation.MprpcChannel.HandleRpcResponse: locating the provider, sending and the failures before an id is drawn are I/O; whether
  the response bytes parse is a parameter, and parsing and running the closure are one step because nothing else sees the
  call in between.
- ConsistentHashing.ConsistentHash.GetNode: `std::hash` is an arbitrary function, and the mutex is implicit in methods being steps.
- Chunked.StreamLineReader.Getline: a stream ends but does not fail; a read error in the middle of a line is left out.
- Chunked.ReadContentWithLength: receivers and progress callbacks never refuse, and streams do not fail.
- Chunked.ReadContentChunked: trailer fields are read past but not stored, receivers never refuse, and compression is off.
- Chunked.ChunkedWriter.WriteContentChunked: writes to the socket always succeed, no trailers are sent, compression is off.
- Multipart.FormRoundTrip: the header lines of an item are opaque text that an arbitrary predicate accepts or not.
- Multipart.MultipartFormDataParser.Headers: the regular expressions on a header line are that predicate; name, file name and
  content type are not extracted, and callbacks never refuse.
- Multipart.MultipartFormDataParser.Body: the content callback never refuses.
- Multipart.MultipartFormDataParser.Parse: events are collected in a list instead of being handed to callbacks, which never refuse.
- PercentEncoding.DecodeUrlText: character classes are those of the C locale.
- QueryString.ParseQueryText: the multimap is a sequence in key order.
- ThreadPools.ThreadPool.WorkerLook: the threads themselves are the steps of the transition system; a job that throws is not modelled.
- ConnectionPools.ConnectionPool.GetConnection: the waiting before it is left to the caller; the idle scanner does nothing in the
  source and the destructor runs after all steps.
- GatewayPipelines.GatewayPipeline.LoginFilter: splitting a login into user and password and asking the database are the parameter
  `accepted`; reply texts are constructors.
- GatewayPipelines.GatewayPipeline.Process: the loop over the three filters is unrolled; signing, decoding and signature checks are an
  arbitrary function from token text to its dates; the store forgets an entry only at its time.
- GatewayPipelines.LogoutGap: is about a store stricter than Redis, which keeps a key until the clock is past its time; with such a
  store `LogoutIsPermanent` has no exception but unreadability.
- GatewayPipelines.LogoutIsPermanent: is about the text of the token. The base64url decoder
  (src/include/jwt-cpp/include/jwt-cpp/base.h:228-270) ignores the unused bits of the last signature character, so another
  text of the same ticket passes the same checks; a logout does not reach it (`GatewayPipelines.OtherTextsStay`).
- AgentWorkflows.FindCliff: scores are exact reals, so single-precision rounding at 0.05 is not modelled.
- AgentWorkflows.BuildRagContext: scores are exact reals, so single-precision rounding at 0.45 is not modelled; embedding, search
  and reranking supply the hits, and the prompt templates around the context are left out.
- AgentWorkflows.AgentWorkflow.ExecuteReActLoop: JSON, HTTP, the fallback model and the tools offered with a request are behind the reply;
  an exception anywhere in a reply counts as unreadable and leaves the conversation of the abandoned turn without that reply;
  message wording is a constructor.
- AgentWorkflows.AgentWorkflow.Run: retrieval comes before it, and its prompt is given to the constructor.
- Sessions.StoreHolds: which sessions a save evicts is arbitrary; the order of use and the capacity of the cache are not modelled.
- The second thread pool, the lock-free log queue, HNSW search, metrics export, configuration, TLS and platform code.
