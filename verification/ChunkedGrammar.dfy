/** Chunked bodies by the grammar of section 7.1 of RFC 9112 - sizes of hexadecimal digits and nothing else, line ends of
    two bytes, no extensions and no trailers: what is written is one, and each is read. */
module ChunkedGrammar {
  import opened Bytes
  import opened Chunked

  /** `1*HEXDIG`, standing for `n`. */
  predicate IsSize(s: bytes, n: nat)
  {
    s != [] && (forall i :: 0 <= i < |s| ==> s[i] as char in "0123456789abcdefABCDEF") && SizeValue(s) == n
  }

  /** The place value of the digits, either case. */
  function SizeValue(s: bytes): (n: nat)
  {
    if s == [] then 0
    else
      var c := s[|s| - 1];
      16 * SizeValue(s[..|s| - 1])
      + if 48 <= c <= 57 then c - 48 else if 97 <= c <= 102 then c - 87 else if 65 <= c <= 70 then c - 55 else 0
  }

  /** `*chunk last-chunk CRLF`, carrying `body`. */
  ghost predicate ChunkedBody(s: bytes, body: bytes)
    decreases |s|
  {
    || (body == [] && exists size: bytes :: IsSize(size, 0) && s == size + [13, 10] + [13, 10])
    || exists size: bytes, data: bytes, rest: bytes, more: bytes ::
         Begins(s, body, size, data, rest, more) && |rest| < |s| && ChunkedBody(rest, more)
  }

  /** `chunk-size CRLF chunk-data CRLF` and what follows. */
  predicate Begins(s: bytes, body: bytes, size: bytes, data: bytes, rest: bytes, more: bytes)
  {
    && data != [] && IsSize(size, |data|)
    && s == size + [13, 10] + data + [13, 10] + rest && body == data + more
  }

  lemma {:induction false} SizesAgree(s: bytes)
    requires forall i :: 0 <= i < |s| ==> s[i] as char in "0123456789abcdefABCDEF"
    ensures AllHex(s) && HexNumber(s) == SizeValue(s)
  {
    DigitsAreHex(s);
    if s != [] { SizesAgree(s[..|s| - 1]); }
  }

  lemma DigitsAreHex(s: bytes)
    requires forall i :: 0 <= i < |s| ==> s[i] as char in "0123456789abcdefABCDEF"
    ensures AllHex(s)
  {
  }

  lemma {:induction false} SizeWritten(n: nat)
    ensures IsSize(Hex(n), n) && Hex(n)[0] != '+' as int && Hex(n)[0] != '-' as int
  {
    var s := Hex(n);
    if n >= 16 {
      SizeWritten(n / 16);
      HexRow(0, n % 16);
      assert s[..|s| - 1] == Hex(n / 16);
      assert s[|s| - 1] == HexDigit(n % 16);
      forall i | 0 <= i < |s| ensures s[i] as char in "0123456789abcdefABCDEF" {
        if i < |s| - 1 { assert s[i] == Hex(n / 16)[i]; }
      }
    } else {
      assert s[..0] == [] && SizeValue([]) == 0;
    }
  }

  /** The bytes of one chunk. */
  lemma ChunkWritten(data: bytes)
    requires data != []
    ensures exists size: bytes :: IsSize(size, |data|) && Chunk(data) == size + [13, 10] + data + [13, 10]
  {
    SizeWritten(|data|);
    assert Chunk(data) == Hex(|data|) + [13, 10] + data + [13, 10];
  }

  /** Everything written before `Done`, and it, make up a chunked body that carries exactly the data. */
  lemma {:induction false} WrittenIsChunkedBody(writes: seq<SinkAction>)
    requires Done !in writes
    ensures ChunkedBody(Render(writes + [Done]), Content(writes + [Done]))
  {
    hide Chunk, IsSize, ChunkedBody;
    var all := writes + [Done];
    if writes == [] {
      assert all[1..] == [] && all[0] == Done;
      assert Render(all) == LAST_CHUNK + Render([]) == LAST_CHUNK;
      LastChunkIsBody();
    } else {
      assert writes[0] in writes;
      var data, more := writes[0].data, writes[1..] + [Done];
      assert all[1..] == more && all[0] == writes[0];
      WrittenIsChunkedBody(writes[1..]);
      if data == [] {
        EmptyChunk();
        assert [] + Render(more) == Render(more) && [] + Content(more) == Content(more);
      } else {
        ChunkWritten(data);
        var size: bytes :| IsSize(size, |data|) && Chunk(data) == size + [13, 10] + data + [13, 10];
        OneMore(size, data, Render(more), Content(more));
      }
    }
  }

  lemma LastChunkIsBody()
    ensures ChunkedBody(LAST_CHUNK, [])
  {
    assert IsSize([48], 0) by { assert [48][..0] == []; }
    assert LAST_CHUNK == [48] + [13, 10] + [13, 10];
  }

  lemma OneMore(size: bytes, data: bytes, rest: bytes, more: bytes)
    requires data != [] && IsSize(size, |data|) && ChunkedBody(rest, more)
    ensures ChunkedBody(size + [13, 10] + data + [13, 10] + rest, data + more)
  {
    hide IsSize;
    assert Begins(size + [13, 10] + data + [13, 10] + rest, data + more, size, data, rest, more);
  }

  /** And every such body is read, whatever follows it: exactly the data, and nothing behind the last line end. */
  lemma {:induction false} ChunkedBodyIsRead(s: bytes, body: bytes, tail: bytes)
    requires ChunkedBody(s, body) && |body| < 0xffff_ffff_ffff_ffff
    ensures ReadChunks(s + tail) == Received(true, body, tail)
    decreases |s|
  {
    hide ReadChunks, HexNumber, SizeValue;
    if size: bytes :| body == [] && IsSize(size, 0) && s == size + [13, 10] + [13, 10] {
      SizesAgree(size);
      ReadZeroChunk(size, tail);
    } else {
      var size: bytes, data: bytes, rest: bytes, more: bytes :|
        Begins(s, body, size, data, rest, more) && |rest| < |s| && ChunkedBody(rest, more);
      SizesAgree(size);
      ChunkedBodyIsRead(rest, more, tail);
      ReadSizedChunk(size, data, rest + tail);
      assert s + tail == size + CRLF + data + CRLF + (rest + tail);
    }
  }

  // ---------- Trailers ----------

  function TrailerText(lines: seq<bytes>): (r: bytes)
  {
    if lines == [] then [] else lines[0] + [13, 10] + TrailerText(lines[1..])
  }

  /** Trailer lines of up to 8192 bytes with their line ends are skipped up to the empty one, and the first longer
      one has the body refused. */
  lemma {:induction false} TrailersRead(lines: seq<bytes>, rest: bytes)
    requires forall line :: line in lines ==> line != [] && 10 !in line && 13 !in line && 0 !in line
    ensures (forall line :: line in lines ==> |line| <= 8190) ==>
              SkipTrailers(TrailerText(lines) + [13, 10] + rest) == Received(true, [], rest)
    ensures (exists line :: line in lines && |line| > 8190) ==>
              !SkipTrailers(TrailerText(lines) + [13, 10] + rest).ok
    decreases |lines|
  {
    var s := TrailerText(lines) + [13, 10] + rest;
    if lines == [] {
      LineLengthOf([], rest);
      assert s == [] + CRLF + rest == [13, 10] + rest;
      SplitConcat(CRLF, rest);
      CStringWithoutNul(CRLF);
      hide LineLength;
    } else {
      var line, tail := lines[0], TrailerText(lines[1..]) + [13, 10] + rest;
      assert line in lines;
      assert s == line + CRLF + tail;
      LineLengthOf(line, tail);
      SplitConcat(line + CRLF, tail);
      CStringWithoutNul(line + CRLF);
      assert (line + CRLF)[0] == line[0];
      forall l | l in lines[1..] ensures l in lines { }
      assert forall l :: l in lines ==> l == line || l in lines[1..];
      TrailersRead(lines[1..], rest);
      hide LineLength, TrailerText, CString;
    }
  }
}
