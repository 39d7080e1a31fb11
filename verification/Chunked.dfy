/** Chunked transfer coding (section 7.1 of RFC 9112) as the bundled HTTP library writes and reads it.
    No compression; the peer's stream accepts every write; trailer fields are skipped, not stored. */
module Chunked {
  import opened Bytes

  const CR: byte := 13
  const LF: byte := 10
  const CRLF: bytes := [CR, LF]
  const ULONG_MAX := 0xffff_ffff_ffff_ffff
  const HEADER_MAX_LENGTH := 8192
  const RECV_BUFSIZ := 4096

  // ---------- Hexadecimal sizes ----------

  function HexDigit(d: nat): (c: byte)
    requires d < 16
  {
    if d < 10 then 48 + d else 87 + d
  }

  function HexValue(c: byte): (d: Option<nat>)
    ensures d.Some? ==> d.value < 16
  {
    if 48 <= c <= 57 then Some(c - 48)
    else if 65 <= c <= 70 then Some(c - 55)
    else if 97 <= c <= 102 then Some(c - 87)
    else None
  }

  /** The digits written are those of the lower-case row, and those read are of either row. */
  lemma HexRow(c: byte, d: nat)
    requires d < 16
    ensures HexDigit(d) == "0123456789abcdef"[d] as int
    ensures HexValue(c) == Some(d) <==> c == "0123456789abcdef"[d] as int || c == "0123456789ABCDEF"[d] as int
  {
    assert d == 0 || d == 1 || d == 2 || d == 3 || d == 4 || d == 5 || d == 6 || d == 7 || d == 8 || d == 9
        || d == 10 || d == 11 || d == 12 || d == 13 || d == 14 || d == 15;
  }

  function Hex(n: nat): (r: bytes)
    ensures r != [] && forall i :: 0 <= i < |r| ==> HexValue(r[i]).Some?
  {
    if n < 16 then [HexDigit(n)] else Hex(n / 16) + [HexDigit(n % 16)]
  }

  method FromIToHex(n: nat) returns (ret: bytes)
    ensures ret == Hex(n)
  {
    var m := n;
    ret := [HexDigit(m % 16)];
    m := m / 16;
    while m > 0
      invariant Hex(n) == (if m > 0 then Hex(m) else []) + ret
    {
      ghost var before := ret;
      ret := [HexDigit(m % 16)] + ret;
      if m >= 16 { ConcatAssoc(Hex(m / 16), [HexDigit(m % 16)], before); }
      m := m / 16;
    }
  }

  function HexNumber(s: bytes): (n: nat)
    requires forall i :: 0 <= i < |s| ==> HexValue(s[i]).Some?
  {
    if s == [] then 0 else 16 * HexNumber(s[..|s| - 1]) + HexValue(s[|s| - 1]).value
  }

  lemma {:induction false} HexNumberOfHex(n: nat)
    ensures HexNumber(Hex(n)) == n
  {
    if n >= 16 {
      HexNumberOfHex(n / 16);
      assert Hex(n)[..|Hex(n)| - 1] == Hex(n / 16);
    }
  }

  // ---------- C strings and strtoul ----------

  /** The part of a buffer before its first NUL. */
  function CString(s: bytes): (r: bytes)
  {
    if s == [] || s[0] == 0 then [] else [s[0]] + CString(s[1..])
  }

  lemma {:induction false} CStringWithoutNul(s: bytes)
    requires 0 !in s
    ensures CString(s) == s
  {
    if s != [] { CStringWithoutNul(s[1..]); }
  }

  function SkipSpaces(s: bytes): (r: bytes)
  {
    if s != [] && (s[0] == 32 || 9 <= s[0] <= 13) then SkipSpaces(s[1..]) else s
  }

  function HexRun(s: bytes): (k: nat)
    ensures k <= |s| && forall i :: 0 <= i < k ==> HexValue(s[i]).Some?
  {
    if s == [] || HexValue(s[0]).None? then 0 else 1 + HexRun(s[1..])
  }

  lemma {:induction false} HexRunThen(digits: bytes, rest: bytes)
    requires forall i :: 0 <= i < |digits| ==> HexValue(digits[i]).Some?
    requires rest != [] && HexValue(rest[0]).None?
    ensures HexRun(digits + rest) == |digits|
  {
    if digits == [] {
      assert digits + rest == rest;
    } else {
      assert (digits + rest)[1..] == digits[1..] + rest;
      HexRunThen(digits[1..], rest);
    }
  }

  function AfterSign(s: bytes): (r: bytes)
  {
    if s != [] && (s[0] == 43 || s[0] == 45) then s[1..] else s
  }

  function AfterPrefix(s: bytes): (r: bytes)
  {
    if |s| >= 3 && s[0] == 48 && (s[1] == 88 || s[1] == 120) && HexValue(s[2]).Some? then s[2..] else s
  }

  /** `strtoul(line, &end, 16)`; `None` when `end` stays at the start. Overflow yields `ULONG_MAX`. */
  function Strtoul16(line: bytes): (r: Option<nat>)
    ensures r.Some? ==> r.value <= ULONG_MAX
  {
    var s := SkipSpaces(CString(line));
    var negative := s != [] && s[0] == 45;
    var digits := AfterPrefix(AfterSign(s));
    var k := HexRun(digits);
    if k == 0 then None
    else
      var n := HexNumber(digits[..k]);
      if n > ULONG_MAX then Some(ULONG_MAX)
      else Some(if negative && n > 0 then ULONG_MAX + 1 - n else n)
  }

  predicate AllHex(s: bytes)
  {
    forall i :: 0 <= i < |s| ==> HexValue(s[i]).Some?
  }

  /** A line of hexadecimal digits only stands for their number, leading zeros or not. */
  lemma StrtoulOfDigits(digits: bytes)
    requires digits != [] && AllHex(digits) && HexNumber(digits) <= ULONG_MAX
    ensures Strtoul16(digits + CRLF) == Some(HexNumber(digits))
  {
    var line := digits + CRLF;
    hide HexRun, HexNumber;
    assert HexValue(line[0]).Some? && (HexValue(line[1]).Some? || line[1] == CR) by {
      assert line[0] == digits[0] && (|digits| > 1 ==> line[1] == digits[1]);
    }
    assert CString(line) == line by {
      assert forall i :: 0 <= i < |line| ==> line[i] != 0;
      CStringWithoutNul(line);
    }
    assert SkipSpaces(line) == line && AfterSign(line) == line && AfterPrefix(line) == line;
    HexRunThen(digits, CRLF);
    SplitConcat(digits, CRLF);
  }

  lemma StrtoulOfHex(n: nat)
    requires n <= ULONG_MAX
    ensures Strtoul16(Hex(n) + CRLF) == Some(n)
  {
    hide Hex, HexNumber, Strtoul16;
    HexNumberOfHex(n);
    StrtoulOfDigits(Hex(n));
  }

  // ---------- Lines ----------

  /** Length of the first line of `s`, its line feed included. */
  function LineLength(s: bytes): (k: nat)
    ensures k <= |s| && (s != [] ==> k > 0)
  {
    if s == [] then 0 else if s[0] == LF then 1 else 1 + LineLength(s[1..])
  }

  lemma {:induction false} LineLengthOf(text: bytes, rest: bytes)
    requires LF !in text
    ensures LineLength(text + CRLF + rest) == |text| + 2
  {
    var s := text + CRLF + rest;
    if text == [] {
      assert s[0] == CR && s[1] == LF && s[1..][0] == LF;
    } else {
      assert s[1..] == text[1..] + CRLF + rest;
      LineLengthOf(text[1..], rest);
    }
  }

  lemma LineLengthStep(c: byte, rest: bytes)
    ensures LineLength([]) == 0
    ensures LineLength([c] + rest) == if c == LF then 1 else 1 + LineLength(rest)
  {
    assert ([c] + rest)[1..] == rest;
  }

  // ---------- What the reader does with a byte stream ----------

  /** Whether it succeeded, the body it delivered, and what it left in the stream. */
  datatype Received = Received(ok: bool, body: bytes, rest: bytes)

  function SkipTrailers(s: bytes): (r: Received)
    ensures r.body == []
    decreases |s|
  {
    if s == [] then Received(false, [], [])
    else
      var k := LineLength(s);
      if CString(s[..k]) == CRLF then Received(true, [], s[k..])
      else if k > HEADER_MAX_LENGTH then Received(false, [], s[k..])
      else SkipTrailers(s[k..])
  }

  /** From the start of a chunk-size line. */
  function ReadChunks(s: bytes): (r: Received)
    decreases |s|
  {
    if s == [] then Received(false, [], [])
    else
      var k := LineLength(s);
      var p := s[k..];
      match Strtoul16(s[..k])
      case None => Received(false, [], p)
      case Some(n) =>
        if n == ULONG_MAX then Received(false, [], p)
        else if n == 0 then SkipTrailers(p)
        else if |p| <= n then Received(false, p, [])
        else
          var q := p[n..];
          var j := LineLength(q);
          if CString(q[..j]) != CRLF then Received(false, p[..n], q[j..])
          else
            var more := ReadChunks(q[j..]);
            Received(more.ok, p[..n] + more.body, more.rest)
  }

  // ---------- What the writer produces ----------

  /** What a content provider does with the sink it is given. */
  datatype SinkAction = Write(data: bytes) | Done

  function Chunk(data: bytes): (r: bytes)
  {
    if data == [] then [] else Hex(|data|) + CRLF + data + CRLF
  }

  const LAST_CHUNK: bytes := [48] + CRLF + CRLF

  function Render(actions: seq<SinkAction>): (r: bytes)
  {
    if actions == [] then []
    else (if actions[0].Done? then LAST_CHUNK else Chunk(actions[0].data)) + Render(actions[1..])
  }

  /** The data written before the first `Done`. */
  function Content(actions: seq<SinkAction>): (r: bytes)
  {
    if actions == [] || actions[0].Done? then [] else actions[0].data + Content(actions[1..])
  }

  function AfterDone(actions: seq<SinkAction>): (r: seq<SinkAction>)
  {
    if actions == [] then [] else if actions[0].Done? then actions[1..] else AfterDone(actions[1..])
  }

  /** Sizes fit the machine word that is printed in the chunk header. */
  predicate Sized(actions: seq<SinkAction>)
  {
    forall a :: a in actions && a.Write? ==> |a.data| < ULONG_MAX
  }

  /** One chunk: a size in any spelling, the data, the line ends. */
  lemma ReadSizedChunk(size: bytes, data: bytes, t: bytes)
    requires size != [] && AllHex(size) && HexNumber(size) == |data| && 0 < |data| < ULONG_MAX
    ensures ReadChunks(size + CRLF + data + CRLF + t)
         == Received(ReadChunks(t).ok, data + ReadChunks(t).body, ReadChunks(t).rest)
  {
    StrtoulOfDigits(size);
    hide Strtoul16, SkipTrailers, CString, HexNumber;
    var s := size + CRLF + data + CRLF + t;
    var p := data + (CRLF + t);
    var k := |size| + 2;
    assert s == size + CRLF + p;
    assert LF !in size;
    LineLengthOf(size, p);
    SplitConcat(size + CRLF, p);
    SplitConcat(data, CRLF + t);
    LineLengthOf([], t);
    assert [] + CRLF + t == CRLF + t;
    SplitConcat(CRLF, t);
    CStringWithoutNul(CRLF);
  }

  lemma ReadOneChunk(data: bytes, t: bytes)
    requires data != [] && |data| < ULONG_MAX
    ensures ReadChunks(Chunk(data) + t)
         == Received(ReadChunks(t).ok, data + ReadChunks(t).body, ReadChunks(t).rest)
  {
    hide Hex, ReadChunks, HexNumber;
    HexNumberOfHex(|data|);
    ReadSizedChunk(Hex(|data|), data, t);
  }

  /** A size of zero in any spelling ends the body. */
  lemma ReadZeroChunk(size: bytes, t: bytes)
    requires size != [] && AllHex(size) && HexNumber(size) == 0
    ensures ReadChunks(size + CRLF + CRLF + t) == Received(true, [], t)
  {
    StrtoulOfDigits(size);
    hide Strtoul16, CString, HexNumber;
    var s := size + CRLF + CRLF + t;
    assert s == size + CRLF + (CRLF + t);
    assert LF !in size;
    LineLengthOf(size, CRLF + t);
    SplitConcat(size + CRLF, CRLF + t);
    LineLengthOf([], t);
    assert [] + CRLF + t == CRLF + t;
    SplitConcat(CRLF, t);
    CStringWithoutNul(CRLF);
  }

  lemma ReadLastChunk(t: bytes)
    ensures ReadChunks(LAST_CHUNK + t) == Received(true, [], t)
  {
    hide ReadChunks;
    assert HexNumber([48]) == 0 by { assert [48][..0] == []; }
    ReadZeroChunk([48], t);
  }

  /** The reader recovers the data written before `Done`, and stops there. */
  lemma {:induction false} ReadRendered(actions: seq<SinkAction>, tail: bytes)
    requires Sized(actions) && Done in actions
    ensures ReadChunks(Render(actions) + tail)
         == Received(true, Content(actions), Render(AfterDone(actions)) + tail)
  {
    hide ReadChunks, Chunk;
    var t := Render(actions[1..]) + tail;
    if actions[0].Done? {
      ConcatAssoc(LAST_CHUNK, Render(actions[1..]), tail);
      ReadLastChunk(t);
    } else {
      ReadRendered(actions[1..], tail);
      ConcatAssoc(Chunk(actions[0].data), Render(actions[1..]), tail);
      if actions[0].data == [] {
        EmptyChunk();
        assert [] + t == t && [] + Content(actions[1..]) == Content(actions[1..]);
      } else {
        ReadOneChunk(actions[0].data, t);
      }
    }
  }

  lemma EmptyChunk()
    ensures Chunk([]) == []
  {
  }

  /** Without `Done` the stream has no end: the reader delivers the data and then fails. */
  lemma {:induction false} ReadUnterminated(actions: seq<SinkAction>)
    requires Sized(actions) && Done !in actions
    ensures ReadChunks(Render(actions)) == Received(false, Content(actions), [])
  {
    if actions != [] {
      hide ReadChunks, Chunk;
      var t := Render(actions[1..]);
      ReadUnterminated(actions[1..]);
      if actions[0].data == [] {
        EmptyChunk();
        assert [] + t == t && [] + Content(actions[1..]) == Content(actions[1..]);
      } else {
        ReadOneChunk(actions[0].data, t);
      }
    }
  }

  // ---------- The writer's loop ----------

  /** One round of `write_content_chunked`: whether the server is shutting down, what the provider
      does with the sink, and whether it returns true. A provider with no round left returns false. */
  datatype Round = Round(shuttingDown: bool, actions: seq<SinkAction>, accepted: bool)

  datatype WriteStatus = Success | Canceled

  /** `data_available` after some actions. */
  function Available(available: bool, actions: seq<SinkAction>): (r: bool)
  {
    if actions == [] then available
    else
      var last := actions[|actions| - 1];
      last.Write? && last.data != []
  }

  /** The actions that are performed before the loop ends. */
  function Executed(available: bool, rounds: seq<Round>): (r: seq<SinkAction>)
  {
    if !available || rounds == [] || rounds[0].shuttingDown then []
    else if !rounds[0].accepted then rounds[0].actions
    else rounds[0].actions + Executed(Available(available, rounds[0].actions), rounds[1..])
  }

  function Status(available: bool, rounds: seq<Round>): (r: WriteStatus)
  {
    if !available then Success
    else if rounds == [] then Canceled
    else if rounds[0].shuttingDown then Success
    else if !rounds[0].accepted then Canceled
    else Status(Available(available, rounds[0].actions), rounds[1..])
  }

  /** After this round the loop goes on: the provider is content, and what it did last, if anything, was to write data. */
  predicate GoesOn(round: Round)
  {
    && !round.shuttingDown && round.accepted
    && (round.actions == [] || (round.actions[|round.actions| - 1].Write? && round.actions[|round.actions| - 1].data != []))
  }

  /** The first round after which it does not. */
  function FirstStop(rounds: seq<Round>): (k: nat)
    ensures k <= |rounds| && (forall j :: 0 <= j < k ==> GoesOn(rounds[j])) && (k < |rounds| ==> !GoesOn(rounds[k]))
  {
    if rounds == [] || !GoesOn(rounds[0]) then 0 else 1 + FirstStop(rounds[1..])
  }

  function AllActions(rounds: seq<Round>): (r: seq<SinkAction>)
  {
    if rounds == [] then [] else rounds[0].actions + AllActions(rounds[1..])
  }

  /** Performed are the actions of all rounds up to that one, and its own unless the server is shutting down; the loop
      reports success if that round exists and the provider did not give up in it. */
  lemma {:induction false} LoopExactly(rounds: seq<Round>)
    ensures var k := FirstStop(rounds);
            var own := if k < |rounds| && !rounds[k].shuttingDown then rounds[k].actions else [];
            && Executed(true, rounds) == AllActions(rounds[..k]) + own
            && (Status(true, rounds) == Success <==> k < |rounds| && (rounds[k].shuttingDown || rounds[k].accepted))
    decreases |rounds|
  {
    var k := FirstStop(rounds);
    hide Executed, Status, GoesOn;
    if k > 0 {
      LoopGoesOn(rounds);
      LoopExactly(rounds[1..]);
      assert rounds[..k][1..] == rounds[1..][..k - 1];
      var own := if k < |rounds| && !rounds[k].shuttingDown then rounds[k].actions else [];
      ConcatAssoc(rounds[0].actions, AllActions(rounds[1..][..k - 1]), own);
    } else {
      assert rounds[..0] == [];
      LoopStops(rounds);
    }
  }

  lemma LoopGoesOn(rounds: seq<Round>)
    requires rounds != [] && GoesOn(rounds[0])
    ensures Executed(true, rounds) == rounds[0].actions + Executed(true, rounds[1..])
    ensures Status(true, rounds) == Status(true, rounds[1..])
  {
    assert Available(true, rounds[0].actions);
    hide Available;
  }

  lemma LoopStops(rounds: seq<Round>)
    requires rounds != [] ==> !GoesOn(rounds[0])
    ensures Executed(true, rounds) == if rounds != [] && !rounds[0].shuttingDown then rounds[0].actions else []
    ensures Status(true, rounds) == Success <==> rounds != [] && (rounds[0].shuttingDown || rounds[0].accepted)
  {
    if rounds != [] {
      assert Executed(false, rounds[1..]) == [] && Status(false, rounds[1..]) == Success;
      assert !rounds[0].shuttingDown && rounds[0].accepted ==> !Available(true, rounds[0].actions);
    }
  }

  predicate AllSized(rounds: seq<Round>)
  {
    forall r :: r in rounds ==> Sized(r.actions)
  }

  lemma {:induction false} ExecutedSized(available: bool, rounds: seq<Round>)
    requires AllSized(rounds)
    ensures Sized(Executed(available, rounds))
    decreases |rounds|
  {
    if rounds != [] { ExecutedSized(Available(available, rounds[0].actions), rounds[1..]); }
  }

  /** Round trip through the writer's loop, for every provider: the reader accepts what was written
      if and only if `Done` was reached, and then it has exactly the data written before it. */
  lemma WriterReaderRoundTrip(rounds: seq<Round>)
    requires AllSized(rounds)
    ensures var actions := Executed(true, rounds);
            && (ReadChunks(Render(actions)).ok <==> Done in actions)
            && ReadChunks(Render(actions)).body == Content(actions)
            && (Done in actions ==> ReadChunks(Render(actions)).rest == Render(AfterDone(actions)))
  {
    var actions := Executed(true, rounds);
    ExecutedSized(true, rounds);
    if Done in actions {
      ReadRendered(actions, []);
      assert Render(actions) + [] == Render(actions);
      assert Render(AfterDone(actions)) + [] == Render(AfterDone(actions));
    } else {
      ReadUnterminated(actions);
    }
  }

  /** A round after which the loop goes on, without a `Done`: what it did last, if anything, was to write data. */
  predicate DataFlows(round: Round)
  {
    !round.shuttingDown && round.accepted && Done !in round.actions && Available(true, round.actions)
  }

  /** A round that ends the loop without a `Done`: the server is shutting down, or the provider goes on and
      its last write is empty. */
  predicate EndsShort(round: Round)
  {
    round.shuttingDown ||
    (round.accepted && Done !in round.actions &&
     round.actions != [] && round.actions[|round.actions| - 1] == Write([]))
  }

  predicate ShortAt(rounds: seq<Round>, i: nat)
  {
    i < |rounds| && EndsShort(rounds[i]) && forall j :: 0 <= j < i ==> DataFlows(rounds[j])
  }

  lemma ShortLater(rounds: seq<Round>)
    requires rounds != [] && DataFlows(rounds[0])
    ensures (exists i: nat :: ShortAt(rounds, i)) <==> exists i: nat :: ShortAt(rounds[1..], i)
  {
    if i: nat :| ShortAt(rounds, i) {
      assert i > 0;
      assert ShortAt(rounds[1..], i - 1) by {
        forall j | 0 <= j < i - 1 ensures DataFlows(rounds[1..][j]) { assert DataFlows(rounds[j + 1]); }
      }
    }
    if i: nat :| ShortAt(rounds[1..], i) {
      forall j | 0 <= j < i + 1 ensures DataFlows(rounds[j]) { assert j > 0 ==> rounds[j] == rounds[1..][j - 1]; }
      assert ShortAt(rounds, i + 1);
    }
  }

  /** Success is reported without a `Done` performed exactly when some round ends the loop short, by a
      shutdown or an empty last write, after rounds whose last action wrote data. */
  lemma {:induction false} SuccessMissesDone(rounds: seq<Round>)
    ensures Status(true, rounds) == Success && Done !in Executed(true, rounds)
       <==> exists i: nat :: ShortAt(rounds, i)
    decreases |rounds|
  {
    if rounds != [] {
      if DataFlows(rounds[0]) {
        SuccessMissesDone(rounds[1..]);
        ShortLater(rounds);
      } else {
        FirstRoundEnds(rounds);
        hide Status, Executed, DataFlows, EndsShort;
        if i: nat :| ShortAt(rounds, i) { assert i == 0; }
        if EndsShort(rounds[0]) { assert ShortAt(rounds, 0); }
      }
    }
  }

  lemma FirstRoundEnds(rounds: seq<Round>)
    requires rounds != [] && !DataFlows(rounds[0])
    ensures Status(true, rounds) == Success && Done !in Executed(true, rounds) <==> EndsShort(rounds[0])
  {
    var here := rounds[0].actions;
    if here != [] { assert here[|here| - 1] in here; }
    assert Executed(false, rounds[1..]) == [];
  }

  /** So a provider that never writes an empty block and is not cut short always reaches `Done`. */
  lemma {:induction false} SuccessReachesDone(rounds: seq<Round>)
    requires Status(true, rounds) == Success
    requires forall r :: r in rounds ==> !r.shuttingDown && Write([]) !in r.actions
    ensures Done in Executed(true, rounds)
  {
    var here := rounds[0].actions;
    if Available(true, here) {
      SuccessReachesDone(rounds[1..]);
    } else {
      assert here[|here| - 1] in here;
    }
  }

  /** An empty write ends the loop with success but without a last chunk: the peer is left waiting. */
  lemma EmptyWriteTruncates(data: bytes)
    requires 0 < |data| < ULONG_MAX
    ensures var rounds := [Round(false, [Write(data), Write([])], true), Round(false, [Done], true)];
            && Status(true, rounds) == Success
            && ReadChunks(Render(Executed(true, rounds))) == Received(false, data, [])
  {
    var actions := [Write(data), Write([])];
    var rounds := [Round(false, actions, true), Round(false, [Done], true)];
    assert Available(true, actions) == false;
    assert Executed(false, rounds[1..]) == [];
    assert Executed(true, rounds) == actions;
    ReadUnterminated(actions);
    assert actions[1..] == [Write([])];
    assert Content([Write([])]) == [];
    assert Content(actions) == data + [];
  }

  class ChunkedWriter {
    var out: bytes
    var dataAvailable: bool
    var offset: nat

    constructor ()
      ensures out == [] && dataAvailable && offset == 0
    {
      out, dataAvailable, offset := [], true, 0;
    }

    method SinkWrite(data: bytes)
      modifies this
      ensures out == old(out) + Chunk(data) && dataAvailable == (data != [])
      ensures offset == old(offset) + |data|
    {
      dataAvailable := |data| > 0;
      offset := offset + |data|;
      if |data| > 0 {
        var size := FromIToHex(|data|);
        out := out + (size + CRLF + data + CRLF);
      }
    }

    method SinkDone()
      modifies this
      ensures out == old(out) + LAST_CHUNK && !dataAvailable && offset == old(offset)
    {
      dataAvailable := false;
      out := out + ([48] + CRLF);
      out := out + CRLF;
    }

    /** The provider's call, as the actions it performs. */
    method Provide(actions: seq<SinkAction>)
      modifies this
      ensures out == old(out) + Render(actions)
      ensures dataAvailable == Available(old(dataAvailable), actions)
    {
      hide Chunk;
      var i := 0;
      assert actions[..0] == [];
      while i < |actions|
        invariant 0 <= i <= |actions|
        invariant out == old(out) + Render(actions[..i])
        invariant dataAvailable == Available(old(dataAvailable), actions[..i])
      {
        ghost var soFar := Render(actions[..i]);
        RenderSnoc(actions[..i], actions[i]);
        assert actions[..i] + [actions[i]] == actions[..i + 1];
        if actions[i].Write? {
          SinkWrite(actions[i].data);
          ConcatAssoc(old(out), soFar, Chunk(actions[i].data));
        } else {
          SinkDone();
          ConcatAssoc(old(out), soFar, LAST_CHUNK);
        }
        i := i + 1;
      }
      assert actions[..|actions|] == actions;
    }

    method WriteContentChunked(rounds: seq<Round>) returns (status: WriteStatus)
      requires dataAvailable && out == []
      modifies this
      ensures status == Status(true, rounds)
      ensures out == Render(Executed(true, rounds))
    {
      var i := 0;
      ghost var done: seq<SinkAction> := [];
      assert rounds[0..] == rounds;
      while dataAvailable
        invariant 0 <= i <= |rounds|
        invariant out == Render(done)
        invariant Executed(true, rounds) == done + Executed(dataAvailable, rounds[i..])
        invariant Status(true, rounds) == Status(dataAvailable, rounds[i..])
        decreases |rounds| - i
      {
        if i == |rounds| { assert done + [] == done; return Canceled; }
        if rounds[i].shuttingDown { assert done + [] == done; break; }
        assert rounds[i..][1..] == rounds[i + 1..];
        ghost var before, available := done, dataAvailable;
        RenderConcat(done, rounds[i].actions);
        done := done + rounds[i].actions;
        Provide(rounds[i].actions);
        if !rounds[i].accepted { return Canceled; }
        ConcatAssoc(before, rounds[i].actions, Executed(dataAvailable, rounds[i + 1..]));
        i := i + 1;
      }
      assert !dataAvailable ==> done + [] == done;
      return Success;
    }
  }

  lemma {:induction false} RenderConcat(a: seq<SinkAction>, b: seq<SinkAction>)
    ensures Render(a + b) == Render(a) + Render(b)
  {
    if a == [] {
      assert a + b == b;
    } else {
      hide Chunk;
      assert (a + b)[1..] == a[1..] + b;
      RenderConcat(a[1..], b);
      ConcatAssoc(if a[0].Done? then LAST_CHUNK else Chunk(a[0].data), Render(a[1..]), Render(b));
    }
  }

  lemma RenderSnoc(a: seq<SinkAction>, last: SinkAction)
    ensures Render(a + [last]) == Render(a) + if last.Done? then LAST_CHUNK else Chunk(last.data)
  {
    hide Chunk;
    RenderConcat(a, [last]);
    assert Render([last]) == (if last.Done? then LAST_CHUNK else Chunk(last.data)) + Render([]);
  }

  // ---------- The reader over a socket that delivers as it likes ----------

  class Stream {
    const data: bytes
    var pos: nat

    predicate Valid()
      reads this
    {
      pos <= |data|
    }

    function Rest(): (r: bytes)
      requires Valid()
      reads this
    {
      data[pos..]
    }

    constructor (data: bytes)
      ensures Valid() && Rest() == data
    {
      this.data := data;
      pos := 0;
    }

    /** Any positive number of the bytes asked for, or none at the end of the stream. */
    method Read(size: nat) returns (chunk: bytes)
      requires Valid() && size > 0
      modifies this
      ensures Valid() && old(Rest()) == chunk + Rest()
      ensures |chunk| <= size && (chunk == [] <==> old(Rest()) == [])
    {
      var left := |data| - pos;
      var n: nat :| n <= size && n <= left && (n == 0 <==> left == 0) by { assert left == 0 || 1 <= size; }
      chunk := data[pos..pos + n];
      pos := pos + n;
    }
  }

  class StreamLineReader {
    const fixedBuffer: array<byte>
    var fixedUsed: nat
    var glowable: bytes

    constructor (bufsiz: nat)
      requires bufsiz > 0
      ensures Valid() && fresh(fixedBuffer) && fixedBuffer.Length == bufsiz
    {
      fixedBuffer := new byte[bufsiz];
      fixedUsed, glowable := 0, [];
    }

    predicate Valid()
      reads this
    {
      fixedUsed < fixedBuffer.Length
    }

    /** `ptr()` and `size()` together. */
    function Line(): (r: bytes)
      requires Valid()
      reads this, fixedBuffer
    {
      if glowable == [] then fixedBuffer[..fixedUsed] else glowable
    }

    method Append(c: byte)
      requires Valid() && (glowable != [] ==> fixedUsed == fixedBuffer.Length - 1)
      requires fixedBuffer.Length > 1
      modifies this, fixedBuffer
      ensures Valid() && (glowable != [] ==> fixedUsed == fixedBuffer.Length - 1)
      ensures Line() == old(Line()) + [c]
    {
      if fixedUsed < fixedBuffer.Length - 1 {
        fixedBuffer[fixedUsed] := c;
        fixedUsed := fixedUsed + 1;
        fixedBuffer[fixedUsed] := 0;
      } else {
        if glowable == [] { glowable := fixedBuffer[..fixedUsed]; }
        glowable := glowable + [c];
      }
    }

    method Getline(strm: Stream) returns (ok: bool)
      requires Valid() && fixedBuffer.Length > 1 && strm.Valid()
      modifies this, fixedBuffer, strm
      ensures Valid() && strm.Valid()
      ensures ok <==> old(strm.Rest()) != []
      ensures ok ==> Line() == old(strm.Rest())[..LineLength(old(strm.Rest()))]
      ensures ok ==> strm.Rest() == old(strm.Rest())[LineLength(old(strm.Rest()))..]
      ensures !ok ==> strm.Rest() == []
    {
      hide LineLength;
      ghost var s := strm.Rest();
      fixedUsed := 0;
      glowable := [];
      var i := 0;
      assert s == Line() + strm.Rest();
      while true
        invariant Valid() && strm.Valid() && (glowable != [] ==> fixedUsed == fixedBuffer.Length - 1)
        invariant s == Line() + strm.Rest() && |Line()| == i
        invariant LineLength(s) == i + LineLength(strm.Rest())
        decreases |strm.Rest()|
      {
        ghost var line, before := Line(), strm.Rest();
        var byte_ := strm.Read(1);
        if byte_ == [] {
          LineLengthStep(LF, []);
          if i == 0 { return false; }
          break;
        }
        assert byte_ == [byte_[0]];
        LineLengthStep(byte_[0], strm.Rest());
        ConcatAssoc(line, byte_, strm.Rest());
        Append(byte_[0]);
        i := i + 1;
        if byte_[0] == LF {
          SplitConcat(Line(), strm.Rest());
          return true;
        }
      }
      SplitConcat(Line(), strm.Rest());
      return true;
    }
  }

  /** The caller's content receiver; it accepts everything. */
  class Receiver {
    var body: bytes

    constructor ()
      ensures body == []
    {
      body := [];
    }

    method Out(chunk: bytes)
      modifies this
      ensures body == old(body) + chunk
    {
      body := body + chunk;
    }
  }

  lemma TakeMore(s: bytes, r: nat, chunk: bytes, rest: bytes, before: bytes)
    requires r <= |s| && s[r..] == chunk + rest
    ensures r + |chunk| <= |s| && rest == s[r + |chunk|..]
    ensures (before + s[..r]) + chunk == before + s[..r + |chunk|]
  {
    SplitConcat(chunk, rest);
    assert s[r..][|chunk|..] == s[r + |chunk|..];
    assert s[..r] + chunk == s[..r + |chunk|] by { assert chunk == s[r..][..|chunk|] == s[r..r + |chunk|]; }
    ConcatAssoc(before, s[..r], chunk);
  }

  method ReadContentWithLength(strm: Stream, len: nat, out: Receiver) returns (ok: bool)
    requires strm.Valid()
    modifies strm, out
    ensures strm.Valid()
    ensures ok <==> len <= |old(strm.Rest())|
    ensures out.body == old(out.body) + old(strm.Rest())[..if ok then len else |old(strm.Rest())|]
    ensures strm.Rest() == old(strm.Rest())[if ok then len else |old(strm.Rest())|..]
  {
    hide Stream.Rest;
    ghost var s := strm.Rest();
    var r := 0;
    assert s[..0] == [];
    while r < len
      invariant 0 <= r <= |s| && r <= len && strm.Valid()
      invariant strm.Rest() == s[r..] && out.body == old(out.body) + s[..r]
    {
      var readLen := len - r;
      var chunk := strm.Read(if readLen < RECV_BUFSIZ then readLen else RECV_BUFSIZ);
      if chunk == [] { return false; }
      TakeMore(s, r, chunk, strm.Rest(), old(out.body));
      out.Out(chunk);
      r := r + |chunk|;
    }
    return true;
  }

  /** However the socket splits the stream, the reader does what `ReadChunks` says of its bytes. */
  method ReadContentChunked(strm: Stream, out: Receiver) returns (ok: bool)
    requires strm.Valid()
    modifies strm, out
    ensures strm.Valid()
    ensures ok == ReadChunks(old(strm.Rest())).ok
    ensures out.body == old(out.body) + ReadChunks(old(strm.Rest())).body
    ensures ok ==> strm.Rest() == ReadChunks(old(strm.Rest())).rest
  {
    hide Strtoul16, CString;
    var lineReader := new StreamLineReader(16);
    ghost var s := strm.Rest();
    ghost var start := strm.Rest();
    ok := lineReader.Getline(strm);
    if !ok { assert out.body + [] == out.body; return; }
    while true
      invariant strm.Valid() && lineReader.Valid()
      invariant start != [] && lineReader.Line() == start[..LineLength(start)] && strm.Rest() == start[LineLength(start)..]
      invariant ReadChunks(s).ok == ReadChunks(start).ok && ReadChunks(s).rest == ReadChunks(start).rest
      invariant old(out.body) + ReadChunks(s).body == out.body + ReadChunks(start).body
      decreases |strm.Rest()|
    {
      ghost var body := out.body;
      var chunkLen := Strtoul16(lineReader.Line());
      if chunkLen.None? || chunkLen.value == ULONG_MAX { assert body + [] == body; return false; }
      if chunkLen.value == 0 { break; }
      ghost var p := strm.Rest();
      ok := ReadContentWithLength(strm, chunkLen.value, out);
      if !ok { return false; }
      ghost var q := strm.Rest();
      ok := lineReader.Getline(strm);
      if !ok { assert p[..|p|] == p; return false; }
      if CString(lineReader.Line()) != CRLF { return false; }
      start := strm.Rest();
      ConcatAssoc(body, p[..chunkLen.value], ReadChunks(start).body);
      ok := lineReader.Getline(strm);
      if !ok { assert out.body + [] == out.body; return false; }
    }
    assert out.body + [] == out.body;
    ok := ReadTrailers(strm, lineReader);
  }

  method ReadTrailers(strm: Stream, lineReader: StreamLineReader) returns (ok: bool)
    requires strm.Valid() && lineReader.Valid() && lineReader.fixedBuffer.Length > 1
    modifies strm, lineReader, lineReader.fixedBuffer
    ensures strm.Valid()
    ensures ok == SkipTrailers(old(strm.Rest())).ok
    ensures ok ==> strm.Rest() == SkipTrailers(old(strm.Rest())).rest
  {
    hide CString;
    ghost var start := strm.Rest();
    ok := lineReader.Getline(strm);
    if !ok { return; }
    while CString(lineReader.Line()) != CRLF
      invariant strm.Valid() && lineReader.Valid()
      invariant start != [] && lineReader.Line() == start[..LineLength(start)] && strm.Rest() == start[LineLength(start)..]
      invariant SkipTrailers(old(strm.Rest())) == SkipTrailers(start)
      decreases |strm.Rest()|
    {
      if |lineReader.Line()| > HEADER_MAX_LENGTH { return false; }
      start := strm.Rest();
      ok := lineReader.Getline(strm);
      if !ok { return; }
    }
    ok := true;
  }
}
