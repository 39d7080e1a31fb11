/** The bundled HTTP library's incremental multipart/form-data parser: a state machine over a sliding
    window of the bytes received. Content and header callbacks accept everything; the regular
    expressions that judge a header line are one abstract predicate. */
module Multipart {
  import opened Bytes

  const CRLF: bytes := [13, 10]
  const DASH: bytes := [45, 45]
  const HEADER_MAX_LENGTH := 8192

  // ---------- Searching ----------

  /** Index of the first occurrence of `needle`, or `|haystack|` when there is none. */
  function Find(haystack: bytes, needle: bytes): (k: nat)
    requires needle != []
    ensures k <= |haystack| && (k < |haystack| ==> OccursAt(haystack, needle, k))
  {
    if haystack == [] || OccursAt(haystack, needle, 0) then 0 else 1 + Find(haystack[1..], needle)
  }

  lemma {:induction false} FindIsFirst(haystack: bytes, needle: bytes, k: nat)
    requires needle != [] && k < Find(haystack, needle)
    ensures !OccursAt(haystack, needle, k)
  {
    if k > 0 && OccursAt(haystack, needle, k) {
      assert haystack[1..][k - 1..k - 1 + |needle|] == haystack[k..k + |needle|];
      FindIsFirst(haystack[1..], needle, k - 1);
    }
  }

  lemma OccursPointwise(haystack: bytes, needle: bytes, k: nat)
    requires k + |needle| <= |haystack|
    ensures OccursAt(haystack, needle, k) <==> forall i :: 0 <= i < |needle| ==> haystack[k + i] == needle[i]
  {
    var sub := haystack[k..k + |needle|];
    assert forall i :: 0 <= i < |sub| ==> sub[i] == haystack[k + i];
  }

  lemma FindUnique(haystack: bytes, needle: bytes, k: nat)
    requires needle != [] && k <= |haystack|
    requires forall j: nat :: j < k ==> !OccursAt(haystack, needle, j)
    requires k < |haystack| ==> OccursAt(haystack, needle, k)
    ensures Find(haystack, needle) == k
  {
    var f := Find(haystack, needle);
    if k < f { FindIsFirst(haystack, needle, k); }
  }

  // ---------- The parser as a transition system ----------

  /** The lines of one part's headers, or a block of its content. */
  datatype Event = Header(lines: seq<bytes>) | Data(content: bytes)

  datatype Config = Config(boundary: bytes, headerOk: bytes -> bool) {
    function DashBoundaryCrlf(): (r: bytes)
      ensures |r| == |boundary| + 4 && r == [45, 45] + boundary + [13, 10]
    {
      DASH + boundary + CRLF
    }

    function CrlfDashBoundary(): (r: bytes)
      ensures |r| == |boundary| + 4 && r[0] == 13 && r == [13, 10, 45, 45] + boundary
    {
      CRLF + DASH + boundary
    }
  }

  type Phase = n: nat | n < 5

  datatype Parser = Parser(state: Phase, window: bytes, lines: seq<bytes>, events: seq<Event>, valid: bool)

  const START := Parser(0, [], [], [], false)

  datatype StepResult = Continue(next: Parser) | Return(last: Parser, ok: bool)

  predicate StartsWith(s: bytes, prefix: bytes)
  {
    OccursAt(s, prefix, 0)
  }

  function OpeningStep(c: Config, p: Parser): (r: StepResult)
    requires p.state == 0
    ensures r.Continue? ==> |r.next.window| < |p.window|
  {
    var w := p.window[Find(p.window, c.DashBoundaryCrlf())..];
    if |c.DashBoundaryCrlf()| > |w| then Return(p.(window := w), true)
    else if !StartsWith(w, c.DashBoundaryCrlf()) then Return(p.(window := w), false)
    else Continue(p.(window := w[|c.DashBoundaryCrlf()|..], state := 1))
  }

  lemma OpeningCases(c: Config, p: Parser, w: bytes)
    requires p.state == 0 && w == p.window[Find(p.window, c.DashBoundaryCrlf())..]
    ensures var d0 := c.DashBoundaryCrlf();
            && (|d0| > |w| ==> OpeningStep(c, p) == Return(p.(window := w), true))
            && (|d0| <= |w| && !StartsWith(w, d0) ==> OpeningStep(c, p) == Return(p.(window := w), false))
            && (|d0| <= |w| && StartsWith(w, d0) ==> OpeningStep(c, p) == Continue(p.(window := w[|d0|..], state := 1)))
  {
    hide Find, OccursAt;
  }

  function HeaderLines(c: Config, p: Parser): (r: StepResult)
    requires p.state == 2
    ensures r.Continue? ==> |r.next.window| < |p.window|
    decreases |p.window|
  {
    var pos := Find(p.window, CRLF);
    if pos >= |p.window| then Return(p, true)
    else if pos == 0 then
      Continue(p.(events := p.events + [Header(p.lines)], window := p.window[2..], state := 3))
    else if !c.headerOk(p.window[..pos]) then Return(p.(valid := false), false)
    else HeaderLines(c, p.(lines := p.lines + [p.window[..pos]], window := p.window[pos + 2..]))
  }

  function HeadersStep(c: Config, p: Parser): (r: StepResult)
    requires p.state == 2
    ensures r.Continue? ==> |r.next.window| < |p.window|
  {
    if Find(p.window, CRLF) > HEADER_MAX_LENGTH then Return(p, false) else HeaderLines(c, p)
  }

  function Emit(events: seq<Event>, content: bytes): (r: seq<Event>)
  {
    if content == [] then events else events + [Data(content)]
  }

  function BodyStep(c: Config, p: Parser): (r: StepResult)
    requires p.state == 3
    ensures r.Continue? ==> |r.next.window| < |p.window|
  {
    var d := c.CrlfDashBoundary();
    if |d| > |p.window| then Return(p, true)
    else
      var pos := Find(p.window, d);
      if pos < |p.window| then
        Continue(p.(events := p.events + [Data(p.window[..pos])], window := p.window[pos + |d|..], state := 4))
      else
        var len := |p.window| - |d|;
        Return(p.(events := Emit(p.events, p.window[..len]), window := p.window[len..]), true)
  }

  function BoundaryStep(c: Config, p: Parser): (r: StepResult)
    requires p.state == 4 && p.window != []
    ensures r.Continue? ==> |r.next.window| < |p.window|
  {
    if |p.window| < 2 then Return(p, true)
    else if StartsWith(p.window, CRLF) then Continue(p.(window := p.window[2..], state := 1))
    else if StartsWith(p.window, DASH) then Continue(p.(window := [], valid := true))
    else Return(p, true)
  }

  function Step(c: Config, p: Parser): (r: StepResult)
    requires p.window != []
    ensures r.Continue? ==> |r.next.window| < |p.window| || (p.state == 1 && r.next.state == 2 && r.next.window == p.window)
  {
    if p.state == 0 then OpeningStep(c, p)
    else if p.state == 1 then Continue(p.(lines := [], state := 2))
    else if p.state == 2 then HeadersStep(c, p)
    else if p.state == 3 then BodyStep(c, p)
    else BoundaryStep(c, p)
  }

  /** The whole loop of one `parse` call, after the new bytes were appended to the window. */
  function Run(c: Config, p: Parser): (r: StepResult)
    ensures r.Return?
    decreases |p.window|, if p.state == 1 then 1 else 0
  {
    if p.window == [] then Return(p, true)
    else
      match Step(c, p)
      case Return(q, ok) => Return(q, ok)
      case Continue(q) => Run(c, q)
  }

  function Feed(c: Config, p: Parser, chunk: bytes): (r: StepResult)
    ensures r.Return?
  {
    Run(c, p.(window := p.window + chunk))
  }

  /** Successive `parse` calls, up to the first refusal. */
  function FeedAll(c: Config, p: Parser, chunks: seq<bytes>): (r: StepResult)
    ensures r.Return?
    decreases |chunks|
  {
    if chunks == [] then Return(p, true)
    else
      var r := Feed(c, p, chunks[0]);
      if !r.ok then r else FeedAll(c, r.last, chunks[1..])
  }

  /** The calls that follow one that ended in `r`. */
  function GoOn(c: Config, r: StepResult, chunks: seq<bytes>): (t: StepResult)
    requires r.Return?
  {
    if !r.ok then r else FeedAll(c, r.last, chunks)
  }

  // ---------- The body does not depend on how the input is cut ----------

  /** Scanning a body over chunks: what was emitted, the window kept, whether the delimiter was met,
      and the chunks not yet looked at. */
  datatype Scan = Scan(emitted: bytes, window: bytes, found: bool, unread: seq<bytes>)

  function ScanBody(d: bytes, window: bytes, chunks: seq<bytes>): (r: Scan)
    requires d != []
    decreases |chunks|
  {
    if chunks == [] then Scan([], window, false, [])
    else
      var w := window + chunks[0];
      if |d| > |w| then ScanBody(d, w, chunks[1..])
      else
        var pos := Find(w, d);
        if pos < |w| then Scan(w[..pos], w[pos + |d|..], true, chunks[1..])
        else
          var len := |w| - |d|;
          var more := ScanBody(d, w[len..], chunks[1..]);
          more.(emitted := w[..len] + more.emitted)
  }

  /** What a scan of the bytes `total` has to come to: nothing lost or emitted too early while the
      delimiter has not come; once it has, exactly the bytes before its first occurrence emitted. */
  predicate ScanCorrect(d: bytes, total: bytes, s: Scan)
    requires d != []
  {
    var first := Find(total, d);
    if first < |total|
    then s.found && s.emitted == total[..first] && s.window + Flatten(s.unread) == total[first + |d|..]
    else !s.found && s.emitted + s.window == total && Find(s.window, d) == |s.window|
  }

  lemma ScanBodyStep(d: bytes, window: bytes, chunks: seq<bytes>)
    requires d != [] && chunks != []
    ensures var w, rest := window + chunks[0], chunks[1..];
            ScanBody(d, window, chunks)
            == if |d| > |w| then ScanBody(d, w, rest)
               else if Find(w, d) < |w| then Scan(w[..Find(w, d)], w[Find(w, d) + |d|..], true, rest)
               else
                 var more := ScanBody(d, w[|w| - |d|..], rest);
                 more.(emitted := w[..|w| - |d|] + more.emitted)
  {
    hide Find, OccursAt;
  }

  lemma NothingScanned(d: bytes, window: bytes)
    requires d != [] && Find(window, d) == |window|
    ensures ScanCorrect(d, window + Flatten([]), ScanBody(d, window, []))
  {
    hide Find, OccursAt;
    assert window + Flatten([]) == window;
  }

  /** It comes to that however the input is cut into chunks. */
  lemma {:induction false} BodyIgnoresFragmentation(d: bytes, window: bytes, chunks: seq<bytes>)
    requires d != [] && Find(window, d) == |window|
    ensures ScanCorrect(d, window + Flatten(chunks), ScanBody(d, window, chunks))
    decreases |chunks|
  {
    hide Find, ScanCorrect, ScanBody, OccursAt, Flatten;
    if chunks == [] {
      NothingScanned(d, window);
    } else {
      var w, rest := window + chunks[0], chunks[1..];
      ScanBodyStep(d, window, chunks);
      FlattenCons(chunks);
      ConcatAssoc(window, chunks[0], Flatten(rest));
      if |d| > |w| {
        FindTooShort(w, d);
        BodyIgnoresFragmentation(d, w, rest);
      } else if Find(w, d) < |w| {
        FoundScan(d, w, rest);
      } else {
        var b := w[|w| - |d|..];
        FindInSuffix(w, |w| - |d|, d);
        BodyIgnoresFragmentation(d, b, rest);
        SlideScan(d, w, |w| - |d|, Flatten(rest), ScanBody(d, b, rest));
      }
    }
  }

  lemma FlattenCons(chunks: seq<bytes>)
    requires chunks != []
    ensures Flatten(chunks) == chunks[0] + Flatten(chunks[1..])
  {
  }

  lemma FoundScan(d: bytes, w: bytes, unread: seq<bytes>)
    requires d != [] && Find(w, d) < |w|
    ensures ScanCorrect(d, w + Flatten(unread), Scan(w[..Find(w, d)], w[Find(w, d) + |d|..], true, unread))
  {
    hide Find, Flatten, OccursAt, ScanCorrect;
    var tail, pos := Flatten(unread), Find(w, d);
    FoundFits(w, d);
    FindInPrefix(w, tail, d);
    SlicePrefix(w, tail, pos);
    SlicePrefix(w, tail, pos + |d|);
    FoundIsCorrect(d, w + tail, w[..pos], w[pos + |d|..], unread);
  }

  lemma FoundIsCorrect(d: bytes, total: bytes, emitted: bytes, window: bytes, unread: seq<bytes>)
    requires d != [] && Find(total, d) < |total| && emitted == total[..Find(total, d)]
    requires Find(total, d) + |d| <= |total| && window + Flatten(unread) == total[Find(total, d) + |d|..]
    ensures ScanCorrect(d, total, Scan(emitted, window, true, unread))
  {
    hide Find, Flatten, OccursAt;
  }

  lemma ExtendScan(d: bytes, a: bytes, b: bytes, tail: bytes, more: Scan)
    requires d != [] && |b| == |d| && Find(a + b, d) == |a + b|
    requires ScanCorrect(d, b + tail, more)
    ensures ScanCorrect(d, a + (b + tail), more.(emitted := a + more.emitted))
  {
    hide Find, Flatten, OccursAt;
    var f := Find(b + tail, d);
    FindAcross(a, b, tail, d);
    if f < |b + tail| {
      FoundFits(b + tail, d);
      SliceSuffix(a, b + tail, f);
      SliceSuffix(a, b + tail, f + |d|);
    } else {
      ConcatAssoc(a, more.emitted, more.window);
    }
  }

  lemma SlideScan(d: bytes, w: bytes, len: nat, tail: bytes, more: Scan)
    requires d != [] && |w| == len + |d| && Find(w, d) == |w|
    requires ScanCorrect(d, w[len..] + tail, more)
    ensures ScanCorrect(d, w + tail, more.(emitted := w[..len] + more.emitted))
  {
    hide Find, ScanCorrect, OccursAt;
    var a, b := w[..len], w[len..];
    assert a + b == w;
    ConcatAssoc(a, b, tail);
    ExtendScan(d, a, b, tail, more);
  }

  lemma FoundFits(s: bytes, d: bytes)
    requires d != [] && Find(s, d) < |s|
    ensures Find(s, d) + |d| <= |s|
  {
    assert OccursAt(s, d, Find(s, d));
  }

  lemma SlicePrefix(a: bytes, b: bytes, k: nat)
    requires k <= |a|
    ensures (a + b)[..k] == a[..k] && (a + b)[k..] == a[k..] + b
  {
  }

  lemma SliceSuffix(a: bytes, b: bytes, k: nat)
    requires k <= |b|
    ensures (a + b)[..|a| + k] == a + b[..k] && (a + b)[|a| + k..] == b[k..]
  {
  }

  lemma OccursInPrefix(a: bytes, b: bytes, d: bytes, j: nat)
    requires j + |d| <= |a|
    ensures OccursAt(a + b, d, j) == OccursAt(a, d, j)
  {
    assert (a + b)[j..j + |d|] == a[j..j + |d|];
  }

  lemma OccursInSuffix(s: bytes, len: nat, d: bytes, j: nat)
    requires len <= |s|
    ensures OccursAt(s[len..], d, j) == OccursAt(s, d, len + j)
  {
    if j + |d| <= |s| - len { assert s[len..][j..j + |d|] == s[len + j..len + j + |d|]; }
  }

  /** Found in a prefix means found at the same place in the whole. */
  lemma FindInPrefix(w: bytes, tail: bytes, d: bytes)
    requires d != [] && Find(w, d) < |w|
    ensures Find(w + tail, d) == Find(w, d)
  {
    hide Find;
    var k := Find(w, d);
    forall j: nat | j < k ensures !OccursAt(w + tail, d, j) {
      FindIsFirst(w, d, j);
      OccursInPrefix(w, tail, d, j);
    }
    OccursInPrefix(w, tail, d, k);
    FindUnique(w + tail, d, k);
  }

  lemma FindInSuffix(w: bytes, len: nat, d: bytes)
    requires d != [] && len <= |w| && Find(w, d) == |w|
    ensures Find(w[len..], d) == |w[len..]|
  {
    hide Find;
    forall j: nat | j < |w| - len ensures !OccursAt(w[len..], d, j) {
      FindIsFirst(w, d, len + j);
      OccursInSuffix(w, len, d, j);
    }
    FindUnique(w[len..], d, |w| - len);
  }

  /** Dropping the front `a` of a window without the delimiter cannot hide an occurrence that the
      bytes to come complete: `|d|` bytes are kept. */
  lemma FindAcross(a: bytes, b: bytes, tail: bytes, d: bytes)
    requires d != [] && |b| == |d| && Find(a + b, d) == |a + b|
    ensures Find(a + (b + tail), d) == |a| + Find(b + tail, d)
  {
    hide Find, OccursAt;
    var s, f := a + (b + tail), Find(b + tail, d);
    ConcatAssoc(a, b, tail);
    SliceSuffix(a, b + tail, 0);
    forall j: nat | j < |a| + f ensures !OccursAt(s, d, j) {
      if j < |a| {
        FindIsFirst(a + b, d, j);
        OccursInPrefix(a + b, tail, d, j);
      } else {
        FindIsFirst(b + tail, d, j - |a|);
        OccursInSuffix(s, |a|, d, j - |a|);
      }
    }
    OccursInSuffix(s, |a|, d, f);
    FindUnique(s, d, |a| + f);
  }

  /** The content delivered since the last header block. */
  function Content(events: seq<Event>): (r: bytes)
  {
    if events == [] || events[|events| - 1].Header? then []
    else Content(events[..|events| - 1]) + events[|events| - 1].content
  }

  lemma ContentEmit(events: seq<Event>, content: bytes)
    ensures Content(Emit(events, content)) == Content(events) + content
    ensures Content(events + [Data(content)]) == Content(events) + content
  {
    assert (events + [Data(content)])[..|events|] == events;
    assert Content(events) + [] == Content(events);
  }

  /** Feeding chunks to a parser in its body state, up to and including the one that completes the
      delimiter; there the parser stands behind the delimiter with the rest of that chunk. */
  function FeedBody(c: Config, p: Parser, chunks: seq<bytes>): (r: (Parser, seq<bytes>))
    decreases |chunks|
  {
    if chunks == [] then (p, [])
    else
      var q := p.(window := p.window + chunks[0]);
      if q.window == [] || q.state != 3 then FeedBody(c, q, chunks[1..])
      else
        match BodyStep(c, q)
        case Continue(next) => (next, chunks[1..])
        case Return(last, _) => FeedBody(c, last, chunks[1..])
  }

  /** `parse` calls in the body state do just that, and then go on behind the delimiter. */
  lemma {:induction false} FeedAllBody(c: Config, p: Parser, chunks: seq<bytes>)
    requires p.state == 3
    ensures var (q, unread) := FeedBody(c, p, chunks);
            FeedAll(c, p, chunks) == if q.state == 4 then GoOn(c, Run(c, q), unread) else Return(q, true)
    decreases |chunks|
  {
    hide Run, Find, OccursAt;
    if chunks != [] {
      var q := p.(window := p.window + chunks[0]);
      if q.window == [] {
        NothingToRun(c, q);
        FeedAllBody(c, q, chunks[1..]);
      } else {
        FeedInBody(c, p, chunks[0]);
        if BodyStep(c, q).Return? { FeedAllBody(c, BodyStep(c, q).last, chunks[1..]); }
      }
    }
  }

  lemma NothingToRun(c: Config, p: Parser)
    requires p.window == []
    ensures Run(c, p) == Return(p, true)
  {
  }

  /** Over successive `parse` calls the parser's states and events follow the scan: without the delimiter
      it waits with the window of the scan, and with it it goes on behind it, and either way the content
      delivered is what the scan emitted. */
  lemma ParserScansBody(c: Config, p: Parser, chunks: seq<bytes>)
    requires p.state == 3 && Find(p.window, c.CrlfDashBoundary()) == |p.window|
    ensures var (q, unread) := FeedBody(c, p, chunks);
            var s := ScanBody(c.CrlfDashBoundary(), p.window, chunks);
            && q.window == s.window && unread == s.unread
            && q.state == (if s.found then 4 else 3)
            && Content(q.events) == Content(p.events) + s.emitted
            && FeedAll(c, p, chunks) == if s.found then GoOn(c, Run(c, q), s.unread) else Return(q, true)
  {
    FeedBodyScans(c, p, chunks);
    FeedAllBody(c, p, chunks);
    hide Run, FeedBody, ScanBody, FeedAll, GoOn, Find, OccursAt;
  }

  lemma {:induction false} FeedBodyScans(c: Config, p: Parser, chunks: seq<bytes>)
    requires p.state == 3 && Find(p.window, c.CrlfDashBoundary()) == |p.window|
    ensures var (q, unread) := FeedBody(c, p, chunks);
            var s := ScanBody(c.CrlfDashBoundary(), p.window, chunks);
            && q.window == s.window && unread == s.unread
            && q.state == (if s.found then 4 else 3)
            && Content(q.events) == Content(p.events) + s.emitted
    decreases |chunks|
  {
    hide Find, OccursAt, Content, Config.CrlfDashBoundary;
    var d := c.CrlfDashBoundary();
    if chunks == [] {
      assert Content(p.events) + [] == Content(p.events);
    } else {
      var q := p.(window := p.window + chunks[0]);
      var w := q.window;
      if |d| > |w| {
        FindTooShort(w, d);
        FeedBodyScans(c, q, chunks[1..]);
      } else if Find(w, d) < |w| {
        ContentEmit(p.events, w[..Find(w, d)]);
      } else {
        var len := |w| - |d|;
        FindInSuffix(w, len, d);
        var next := q.(events := Emit(p.events, w[..len]), window := w[len..]);
        FeedBodyScans(c, next, chunks[1..]);
        ContentEmit(p.events, w[..len]);
        ConcatAssoc(Content(p.events), w[..len], ScanBody(d, w[len..], chunks[1..]).emitted);
      }
    }
  }

  lemma FindTooShort(w: bytes, d: bytes)
    requires d != [] && |d| > |w|
    ensures Find(w, d) == |w|
  {
    FindUnique(w, d, |w|);
  }

  /** One `parse` call in the body state either ends as the body step returns, or goes on behind the
      delimiter. */
  lemma FeedInBody(c: Config, p: Parser, chunk: bytes)
    requires p.state == 3 && p.window + chunk != []
    ensures var r := BodyStep(c, p.(window := p.window + chunk));
            Feed(c, p, chunk) == if r.Continue? then Run(c, r.next) else r
  {
  }

  // ---------- The opening boundary does depend on it ----------

  predicate HasOpening(c: Config, chunk: bytes)
  {
    Find(chunk, c.DashBoundaryCrlf()) < |chunk|
  }

  /** What follows the opening boundary in a chunk. */
  function BehindOpening(c: Config, chunk: bytes): (r: bytes)
    requires HasOpening(c, chunk)
  {
    chunk[Find(chunk, c.DashBoundaryCrlf()) + |c.DashBoundaryCrlf()|..]
  }

  /** Index of the first chunk that holds a whole opening boundary. */
  function FirstOpening(c: Config, chunks: seq<bytes>): (i: nat)
    ensures i <= |chunks|
    ensures forall j :: 0 <= j < i ==> !HasOpening(c, chunks[j])
    ensures i < |chunks| ==> HasOpening(c, chunks[i])
  {
    if chunks == [] || HasOpening(c, chunks[0]) then 0 else 1 + FirstOpening(c, chunks[1..])
  }

  /** A partial match is thrown away: over successive `parse` calls the opening boundary is recognised
      exactly when one single chunk holds all of it, and then the first such chunk is the one that counts. */
  lemma {:induction false} OpeningNeedsOneChunk(c: Config, p: Parser, chunks: seq<bytes>)
    requires p.state == 0 && p.window == []
    ensures FeedAll(c, p, chunks)
         == (var i := FirstOpening(c, chunks);
             if i == |chunks| then Return(p, true)
             else GoOn(c, Run(c, p.(state := 1, window := BehindOpening(c, chunks[i]))), chunks[i + 1..]))
    decreases |chunks|
  {
    if chunks != [] {
      FeedOpening(c, p, chunks[0]);
      hide Run, Find, OccursAt, HasOpening, BehindOpening;
      if !HasOpening(c, chunks[0]) {
        OpeningNeedsOneChunk(c, p, chunks[1..]);
        TailAt(chunks, FirstOpening(c, chunks[1..]));
      }
    }
  }

  lemma FeedOpening(c: Config, p: Parser, chunk: bytes)
    requires p.state == 0 && p.window == []
    ensures Feed(c, p, chunk)
         == if HasOpening(c, chunk) then Run(c, p.(state := 1, window := BehindOpening(c, chunk)))
            else Return(p, true)
  {
    hide OpeningStep, BehindOpening, HasOpening, Find, OccursAt;
    assert [] + chunk == chunk && p.(window := []) == p;
    if chunk == [] {
      NoOpening(c);
    } else {
      OpeningChunk(c, p.(window := chunk));
    }
  }

  lemma NoOpening(c: Config)
    ensures !HasOpening(c, [])
  {
    hide Find, OccursAt;
  }

  lemma TailAt(chunks: seq<bytes>, i: nat)
    requires i < |chunks|
    ensures i + 1 < |chunks| ==> chunks[1..][i] == chunks[i + 1] && chunks[1..][i + 1..] == chunks[i + 2..]
  {
  }

  lemma OpeningChunk(c: Config, q: Parser)
    requires q.state == 0
    ensures OpeningStep(c, q)
         == if HasOpening(c, q.window)
            then Continue(q.(state := 1, window := BehindOpening(c, q.window)))
            else Return(q.(window := []), true)
  {
    hide Find;
    var d0, w := c.DashBoundaryCrlf(), q.window;
    if HasOpening(c, w) {
      var pos := Find(w, d0);
      OccursInSuffix(w, pos, d0, 0);
      assert w[pos..][|d0|..] == w[pos + |d0|..];
    } else {
      assert w[|w|..] == [];
    }
  }

  /** So the same bytes are accepted whole and ignored when cut inside the boundary. */
  lemma OpeningCutIsLost(c: Config, cut: nat)
    requires 0 < cut < |c.DashBoundaryCrlf()|
    ensures var d0 := c.DashBoundaryCrlf();
            && FeedAll(c, START, [d0]) == Return(START.(state := 1), true)
            && FeedAll(c, START, [d0[..cut], d0[cut..]]) == Return(START, true)
  {
    var d0 := c.DashBoundaryCrlf();
    FindUnique(d0, d0, 0);
    FindTooShort(d0[..cut], d0);
    FindTooShort(d0[cut..], d0);
    OpeningNeedsOneChunk(c, START, [d0]);
    OpeningNeedsOneChunk(c, START, [d0[..cut], d0[cut..]]);
    hide Find, OccursAt;
    assert d0[|d0|..] == [];
    NothingToRun(c, START.(state := 1, window := []));
    assert START.(state := 1, window := []) == START.(state := 1);
  }

  // ---------- Round trip with the library's own serializer ----------

  /** One form item: its header lines and its content. */
  datatype Item = Item(lines: seq<bytes>, content: bytes)

  function JoinLines(lines: seq<bytes>): (r: bytes)
  {
    if lines == [] then [] else lines[0] + CRLF + JoinLines(lines[1..])
  }

  /** From the end of an item's opening boundary to the end of the whole form. */
  function SerializeFrom(c: Config, items: seq<Item>): (r: bytes)
    requires items != []
  {
    JoinLines(items[0].lines) + (CRLF + (items[0].content + (c.CrlfDashBoundary()
      + if |items| == 1 then DASH + CRLF else CRLF + SerializeFrom(c, items[1..]))))
  }

  function Serialize(c: Config, items: seq<Item>): (r: bytes)
  {
    if items == [] then DASH + c.boundary + DASH + CRLF else c.DashBoundaryCrlf() + SerializeFrom(c, items)
  }

  function LinesText(lines: seq<bytes>): (r: bytes)
  {
    if lines == [] then [] else lines[0] + [13, 10] + LinesText(lines[1..])
  }

  /** A form on the bytes of section 5.1.1 of RFC 2046, behind its first boundary line ... */
  function PartsText(boundary: bytes, items: seq<Item>): (r: bytes)
    requires items != []
  {
    LinesText(items[0].lines) + ([13, 10] + (items[0].content + ([13, 10, 45, 45] + boundary
      + if |items| == 1 then [45, 45, 13, 10] else [13, 10] + PartsText(boundary, items[1..]))))
  }

  /** ... and with it: two hyphens, the boundary, a line end. */
  function FormText(boundary: bytes, items: seq<Item>): (r: bytes)
    requires items != []
  {
    [45, 45] + boundary + [13, 10] + PartsText(boundary, items)
  }

  lemma {:induction false} LinesAreText(lines: seq<bytes>)
    ensures JoinLines(lines) == LinesText(lines)
  {
    if lines != [] { LinesAreText(lines[1..]); }
  }

  lemma {:induction false} PartsAreText(c: Config, items: seq<Item>)
    requires items != []
    ensures SerializeFrom(c, items) == PartsText(c.boundary, items)
  {
    LinesAreText(items[0].lines);
    if |items| > 1 { PartsAreText(c, items[1..]); }
    hide JoinLines, LinesText;
    assert DASH + CRLF == [45, 45, 13, 10];
    assert c.CrlfDashBoundary() == [13, 10, 45, 45] + c.boundary;
  }

  lemma SerializedIsText(c: Config, items: seq<Item>)
    requires items != []
    ensures Serialize(c, items) == FormText(c.boundary, items)
  {
    PartsAreText(c, items);
    hide SerializeFrom, PartsText;
    assert c.DashBoundaryCrlf() == [45, 45] + c.boundary + [13, 10];
  }

  function EventsOf(items: seq<Item>): (r: seq<Event>)
  {
    if items == [] then [] else [Header(items[0].lines), Data(items[0].content)] + EventsOf(items[1..])
  }

  /** Header lines the parser takes, with no line break inside; content without the delimiter. */
  predicate WellFormed(c: Config, item: Item)
  {
    && (forall line :: line in item.lines ==> line != [] && 13 !in line && c.headerOk(line))
    && (item.lines != [] ==> |item.lines[0]| <= HEADER_MAX_LENGTH)
    && Find(item.content, c.CrlfDashBoundary()) == |item.content|
  }

  /** A delimiter with no carriage return past its first byte cannot overlap itself. */
  lemma FindBeforeDelimiter(content: bytes, d: bytes, rest: bytes)
    requires d != [] && d[0] == 13 && 13 !in d[1..]
    requires Find(content, d) == |content|
    ensures Find(content + (d + rest), d) == |content|
  {
    hide Find;
    var s := content + (d + rest);
    forall j: nat | j < |content| ensures !OccursAt(s, d, j) {
      if j + |d| <= |content| {
        OccursInPrefix(content, d + rest, d, j);
        FindIsFirst(content, d, j);
      } else {
        var k := |content| - j;
        assert s[j..j + |d|][k] == (d + rest)[0] == 13;
        assert d[k] == d[1..][k - 1];
      }
    }
    SliceSuffix(content, d + rest, 0);
    OccursInSuffix(s, |content|, d, 0);
    SplitConcat(d, rest);
    FindUnique(s, d, |content|);
  }

  lemma FindLineEnd(line: bytes, rest: bytes)
    requires 13 !in line
    ensures Find(line + (CRLF + rest), CRLF) == |line|
  {
    hide Find, OccursAt;
    var s := line + (CRLF + rest);
    forall j: nat | j < |line| ensures !OccursAt(s, CRLF, j) { NoLineEndInside(line, rest, j); }
    LineEndThere(line, rest);
    FindUnique(s, CRLF, |line|);
  }

  lemma NoLineEndInside(line: bytes, rest: bytes, j: nat)
    requires 13 !in line && j < |line|
    ensures !OccursAt(line + (CRLF + rest), CRLF, j)
  {
    assert (line + (CRLF + rest))[j..j + 2][0] == line[j];
  }

  lemma LineEndThere(line: bytes, rest: bytes)
    ensures OccursAt(line + (CRLF + rest), CRLF, |line|)
  {
    assert (line + (CRLF + rest))[|line|..|line| + 2] == CRLF;
  }

  lemma JoinLinesCons(lines: seq<bytes>)
    requires lines != []
    ensures JoinLines(lines) == lines[0] + CRLF + JoinLines(lines[1..])
  {
  }

  lemma HeaderLineStep(c: Config, p: Parser, line: bytes, more: bytes)
    requires p.state == 2 && p.window == line + (CRLF + more)
    requires line != [] && 13 !in line && c.headerOk(line)
    ensures HeaderLines(c, p) == HeaderLines(c, p.(lines := p.lines + [line], window := more))
  {
    hide Find;
    FindLineEnd(line, more);
    SplitConcat(line, CRLF + more);
    SplitConcat(line + CRLF, more);
    ConcatAssoc(line, CRLF, more);
  }

  lemma {:induction false} HeaderLinesOf(c: Config, p: Parser, lines: seq<bytes>, rest: bytes)
    requires p.state == 2 && p.window == JoinLines(lines) + (CRLF + rest)
    requires forall line :: line in lines ==> line != [] && 13 !in line && c.headerOk(line)
    ensures HeaderLines(c, p)
         == Continue(p.(lines := p.lines + lines, events := p.events + [Header(p.lines + lines)], window := rest, state := 3))
    decreases |lines|
  {
    hide Find;
    if lines == [] {
      assert p.window == [] + (CRLF + rest);
      FindLineEnd([], rest);
      SplitConcat(CRLF, rest);
      assert p.lines + [] == p.lines;
    } else {
      hide HeaderLines, JoinLines;
      JoinLinesCons(lines);
      var line, more := lines[0], JoinLines(lines[1..]) + (CRLF + rest);
      ConcatAssoc(line + CRLF, JoinLines(lines[1..]), CRLF + rest);
      ConcatAssoc(line, CRLF, more);
      assert line in lines;
      HeaderLineStep(c, p, line, more);
      assert forall l :: l in lines[1..] ==> l in lines;
      HeaderLinesOf(c, p.(lines := p.lines + [line], window := more), lines[1..], rest);
      ConcatAssoc(p.lines, [line], lines[1..]);
      assert [line] + lines[1..] == lines;
    }
  }

  lemma FirstLineFits(c: Config, item: Item, rest: bytes)
    requires WellFormed(c, item)
    ensures Find(JoinLines(item.lines) + (CRLF + rest), CRLF) <= HEADER_MAX_LENGTH
  {
    if item.lines == [] {
      assert [] + (CRLF + rest) == CRLF + rest;
      assert JoinLines(item.lines) + (CRLF + rest) == [] + (CRLF + rest);
      FindLineEnd([], rest);
    } else {
      var line, more := item.lines[0], JoinLines(item.lines[1..]) + (CRLF + rest);
      assert line in item.lines;
      ConcatAssoc(line + CRLF, JoinLines(item.lines[1..]), CRLF + rest);
      ConcatAssoc(line, CRLF, more);
      FindLineEnd(line, more);
    }
  }

  /** The parser behind the header block of an item, and behind the delimiter after its content. */
  function InBody(p: Parser, item: Item, body: bytes): (q: Parser)
  {
    p.(lines := item.lines, events := p.events + [Header(item.lines)], window := body, state := 3)
  }

  function BehindItem(p: Parser, item: Item, rest: bytes): (q: Parser)
  {
    p.(state := 4, lines := item.lines, window := rest,
       events := p.events + [Header(item.lines), Data(item.content)])
  }

  lemma ItemHeaders(c: Config, p: Parser, item: Item, body: bytes)
    requires p.state == 2 && p.lines == [] && WellFormed(c, item)
    requires p.window == JoinLines(item.lines) + (CRLF + body)
    ensures HeadersStep(c, p) == Continue(InBody(p, item, body)) && p.window != []
  {
    hide Find, HeaderLines, JoinLines, OccursAt;
    assert |p.window| >= |CRLF|;
    FirstLineFits(c, item, body);
    HeaderLinesOf(c, p, item.lines, body);
    assert [] + item.lines == item.lines;
  }

  lemma ItemBody(c: Config, p: Parser, item: Item, rest: bytes)
    requires WellFormed(c, item) && 13 !in c.boundary
    ensures BodyStep(c, InBody(p, item, item.content + (c.CrlfDashBoundary() + rest)))
         == Continue(BehindItem(p, item, rest))
  {
    hide Find, OccursAt;
    DelimiterText(c, InBody(p, item, item.content + (c.CrlfDashBoundary() + rest)), item.content, rest);
    assert p.events + [Header(item.lines)] + [Data(item.content)]
        == p.events + [Header(item.lines), Data(item.content)];
  }

  /** One item, from behind its opening boundary to behind the next delimiter. */
  lemma RunItem(c: Config, p: Parser, item: Item, rest: bytes)
    requires p.state == 1 && WellFormed(c, item) && 13 !in c.boundary
    requires p.window == JoinLines(item.lines) + (CRLF + (item.content + (c.CrlfDashBoundary() + rest)))
    ensures Run(c, p) == Run(c, BehindItem(p, item, rest))
  {
    hide Find, JoinLines, OccursAt, WellFormed, HeadersStep, BodyStep;
    var body := item.content + (c.CrlfDashBoundary() + rest);
    var p2 := p.(lines := [], state := 2);
    ItemHeaders(c, p2, item, body);
    ItemBody(c, p2, item, rest);
    assert Run(c, p) == Run(c, p2);
    assert Run(c, p2) == Run(c, InBody(p2, item, body));
    assert body != [] by { assert |body| >= |c.CrlfDashBoundary()|; }
    assert Run(c, InBody(p2, item, body)) == Run(c, BehindItem(p2, item, rest));
    assert BehindItem(p2, item, rest) == BehindItem(p, item, rest);
  }

  lemma {:induction false} RunItems(c: Config, p: Parser, items: seq<Item>)
    requires items != [] && 13 !in c.boundary && forall item :: item in items ==> WellFormed(c, item)
    requires p.state == 1 && p.window == SerializeFrom(c, items)
    ensures var r := Run(c, p);
            && r.ok && r.last.valid && r.last.window == [] && r.last.events == p.events + EventsOf(items)
    decreases |items|
  {
    hide Find, JoinLines, WellFormed;
    var item := items[0];
    var here := [Header(item.lines), Data(item.content)];
    if |items| == 1 {
      RunItem(c, p, item, DASH + CRLF);
      assert EventsOf(items) == here + EventsOf([]);
      assert (DASH + CRLF)[..2] == DASH;
    } else {
      var more := SerializeFrom(c, items[1..]);
      RunItem(c, p, item, CRLF + more);
      var q := p.(state := 4, lines := item.lines, window := CRLF + more, events := p.events + here);
      SplitConcat(CRLF, more);
      assert (CRLF + more)[0..2] == CRLF;
      var next := q.(window := more, state := 1);
      assert BoundaryStep(c, q) == Continue(next);
      assert Run(c, q) == Run(c, next);
      RunItems(c, next, items[1..]);
      ConcatAssoc(p.events, here, EventsOf(items[1..]));
    }
  }

  /** Parsing a serialized form delivers exactly its items, in order, and reports a complete body. */
  lemma FormRoundTrip(c: Config, items: seq<Item>)
    requires items != [] && 13 !in c.boundary && forall item :: item in items ==> WellFormed(c, item)
    ensures var r := Feed(c, START, Serialize(c, items));
            r.ok && r.last.valid && r.last.events == EventsOf(items)
    ensures Serialize(c, items) == FormText(c.boundary, items)
  {
    SerializedIsText(c, items);
    hide SerializeFrom, FormText;
    var d0, text := c.DashBoundaryCrlf(), SerializeFrom(c, items);
    var p := START.(window := d0 + text);
    assert [] + (d0 + text) == d0 + text;
    SplitConcat(d0, text);
    assert (d0 + text)[0..|d0|] == d0;
    FindUnique(d0 + text, d0, 0);
    assert (d0 + text)[0..] == d0 + text;
    var p1 := p.(window := text, state := 1);
    assert OpeningStep(c, p) == Continue(p1);
    assert Run(c, p) == Run(c, p1);
    RunItems(c, p1, items);
    assert [] + EventsOf(items) == EventsOf(items);
  }

  /** Two hyphens, the boundary and a line end are where the form begins. */
  lemma OpeningText(c: Config, rest: bytes)
    ensures Feed(c, START, [45, 45] + c.boundary + [13, 10] + rest) == Run(c, START.(state := 1, window := rest))
  {
    var d0 := c.DashBoundaryCrlf();
    var text := d0 + rest;
    assert text[0..|d0|] == d0;
    assert text[|d0|..] == rest;
    FindUnique(text, d0, 0);
    FeedOpening(c, START, text);
    hide Find, OccursAt, Run;
  }

  /** A line end, two hyphens and the boundary are where a content ends. */
  lemma DelimiterText(c: Config, p: Parser, content: bytes, rest: bytes)
    requires p.state == 3 && 13 !in c.boundary && Find(content, c.CrlfDashBoundary()) == |content|
    requires p.window == content + ([13, 10, 45, 45] + c.boundary + rest)
    ensures BodyStep(c, p) == Continue(p.(events := p.events + [Data(content)], window := rest, state := 4))
  {
    hide Find, OccursAt;
    var d := c.CrlfDashBoundary();
    assert d[1..] == [10] + DASH + c.boundary;
    FindBeforeDelimiter(content, d, rest);
    SplitConcat(content, d + rest);
    SplitConcat(content + d, rest);
    ConcatAssoc(content, d, rest);
  }

  /** Behind a delimiter: a line end begins the next part, two hyphens end the form and drop what came with
      them, anything else waits. */
  lemma BoundaryStepExactly(c: Config, p: Parser)
    requires p.state == 4 && p.window != []
    ensures BoundaryStep(c, p) ==
            if |p.window| >= 2 && p.window[0] == 13 && p.window[1] == 10
            then Continue(p.(state := 1, window := p.window[2..]))
            else if |p.window| >= 2 && p.window[0] == 45 && p.window[1] == 45
            then Continue(p.(window := [], valid := true))
            else Return(p, true)
  {
    if |p.window| >= 2 {
      OccursPointwise(p.window, CRLF, 0);
      OccursPointwise(p.window, DASH, 0);
      hide OccursAt;
    }
  }

  // ---------- The parser object ----------

  lemma SliceStart(s: bytes, from: nat, to: nat, k: nat)
    requires from + k <= to <= |s|
    ensures s[from..from + k] == s[from..to][..k]
  {
  }

  class MultipartFormDataParser {
    const config: Config
    var state: Phase
    var isValid: bool
    var lines: seq<bytes>
    var events: seq<Event>
    var buf: bytes
    var bufSpos: nat
    var bufEpos: nat

    constructor (config: Config)
      ensures Valid() && Abs() == START && this.config == config
    {
      this.config := config;
      state, isValid, lines, events := 0, false, [], [];
      buf, bufSpos, bufEpos := [], 0, 0;
    }

    predicate Valid()
      reads this`buf, this`bufSpos, this`bufEpos
    {
      bufSpos <= bufEpos <= |buf|
    }

    function Window(): (w: bytes)
      requires Valid()
      reads this`buf, this`bufSpos, this`bufEpos
    {
      buf[bufSpos..bufEpos]
    }

    function Abs(): (p: Parser)
      requires Valid()
      reads this
    {
      Parser(state, Window(), lines, events, isValid)
    }

    function BufSize(): (n: nat)
      requires Valid()
      reads this`buf, this`bufSpos, this`bufEpos
      ensures n == |Window()|
    {
      bufEpos - bufSpos
    }

    method StartWith(spos: nat, s: bytes) returns (r: bool)
      requires Valid() && bufSpos <= spos <= bufEpos
      ensures r == OccursAt(Window(), s, spos - bufSpos)
    {
      if bufEpos - spos < |s| { return false; }
      OccursPointwise(Window(), s, spos - bufSpos);
      var i := 0;
      while i < |s|
        invariant 0 <= i <= |s|
        invariant forall j :: 0 <= j < i ==> buf[spos + j] == s[j]
      {
        if buf[i + spos] != s[i] {
          assert Window()[spos - bufSpos + i] == buf[spos + i];
          return false;
        }
        i := i + 1;
      }
      return true;
    }

    /** Skip to the next first byte, then compare. */
    method BufFind(s: bytes) returns (r: nat)
      requires Valid() && s != []
      ensures r == Find(Window(), s)
    {
      var c := s[0];
      var off := bufSpos;
      ghost var w := Window();
      while off < bufEpos
        invariant bufSpos <= off <= bufEpos
        invariant forall j: nat :: j < off - bufSpos ==> !OccursAt(w, s, j)
      {
        var pos := off;
        while pos != bufEpos && buf[pos] != c
          invariant off <= pos <= bufEpos
          invariant forall j: nat :: j < pos - bufSpos ==> !OccursAt(w, s, j)
        {
          assert w[pos - bufSpos] == buf[pos];
          pos := pos + 1;
        }
        if pos == bufEpos { FindUnique(w, s, |w|); return BufSize(); }
        var remainingSize := bufEpos - pos;
        if |s| > remainingSize { FindUnique(w, s, |w|); return BufSize(); }
        var here := StartWith(pos, s);
        if here { FindUnique(w, s, pos - bufSpos); return pos - bufSpos; }
        off := pos + 1;
      }
      FindUnique(w, s, |w|);
      return BufSize();
    }

    method SlideToFront()
      requires Valid()
      modifies this`buf, this`bufSpos, this`bufEpos
      ensures Valid() && Window() == old(Window()) && bufSpos == 0
    {
      ghost var w := Window();
      var remainingSize := BufSize();
      if remainingSize > 0 && bufSpos > 0 {
        var i := 0;
        while i < remainingSize
          invariant 0 <= i <= remainingSize && |buf| == |old(buf)|
          invariant bufSpos == old(bufSpos) && bufEpos == old(bufEpos)
          invariant forall j :: 0 <= j < i ==> buf[j] == w[j]
          invariant forall j :: bufSpos + i <= j < bufEpos ==> buf[j] == w[j - bufSpos]
        {
          buf := buf[i := buf[bufSpos + i]];
          i := i + 1;
        }
      }
      bufSpos := 0;
      bufEpos := remainingSize;
    }

    /** Slide the window to the front of the buffer, grow the buffer if needed, copy the new bytes in. */
    method BufAppend(data: bytes)
      requires Valid()
      modifies this`buf, this`bufSpos, this`bufEpos
      ensures Valid() && Window() == old(Window()) + data
    {
      ghost var w := Window();
      SlideToFront();
      var remainingSize := BufSize();
      if remainingSize + |data| > |buf| {
        buf := buf + seq(remainingSize + |data| - |buf|, _ => 0);
      }
      var i := 0;
      while i < |data|
        invariant 0 <= i <= |data| && remainingSize + |data| <= |buf|
        invariant bufSpos == 0 && bufEpos == remainingSize == |w|
        invariant forall j :: 0 <= j < remainingSize ==> buf[j] == w[j]
        invariant forall j :: 0 <= j < i ==> buf[remainingSize + j] == data[j]
      {
        buf := buf[bufEpos + i := data[i]];
        i := i + 1;
      }
      bufEpos := bufEpos + |data|;
    }

    method BufErase(size: nat)
      requires Valid() && size <= BufSize()
      modifies this`bufSpos
      ensures Valid() && Window() == old(Window())[size..]
    {
      bufSpos := bufSpos + size;
    }

    method Opening() returns (stop: bool, ok: bool)
      requires Valid() && state == 0
      modifies this
      ensures Valid()
      ensures OpeningStep(config, old(Abs())) == if stop then Return(Abs(), ok) else Continue(Abs())
    {
      hide Find, OccursAt, OpeningStep, Window, Config.DashBoundaryCrlf;
      var d0 := config.DashBoundaryCrlf();
      var pos := BufFind(d0);
      BufErase(pos);
      ghost var w := Window();
      OpeningCases(config, old(Abs()), w);
      if |d0| > BufSize() { return true, true; }
      var starts := StartWith(bufSpos, d0);
      if !starts { return true, false; }
      BufErase(|d0|);
      assert Window() == w[|d0|..];
      state := 1;
      return false, true;
    }

    method Headers() returns (stop: bool, ok: bool)
      requires Valid() && state == 2
      modifies this
      ensures Valid()
      ensures HeadersStep(config, old(Abs())) == if stop then Return(Abs(), ok) else Continue(Abs())
    {
      hide Find, OccursAt;
      var pos := BufFind(CRLF);
      if pos > HEADER_MAX_LENGTH { return true, false; }
      while pos < BufSize()
        invariant Valid() && state == 2 && pos == Find(Window(), CRLF)
        invariant HeaderLines(config, old(Abs())) == HeaderLines(config, Abs())
        decreases BufSize()
      {
        ghost var before := Abs();
        FoundFits(Window(), CRLF);
        if pos == 0 {
          events := events + [Header(lines)];
          BufErase(2);
          state := 3;
          assert HeaderLines(config, before) == Continue(Abs());
          return false, true;
        }
        var header := buf[bufSpos..bufSpos + pos];
        SliceStart(buf, bufSpos, bufEpos, pos);
        if !config.headerOk(header) {
          isValid := false;
          return true, false;
        }
        lines := lines + [header];
        BufErase(pos + 2);
        assert HeaderLines(config, before) == HeaderLines(config, Abs());
        pos := BufFind(CRLF);
      }
      return true, true;
    }

    method Body() returns (stop: bool, ok: bool)
      requires Valid() && state == 3
      modifies this
      ensures Valid()
      ensures BodyStep(config, old(Abs())) == if stop then Return(Abs(), ok) else Continue(Abs())
    {
      hide Find, OccursAt, Config.CrlfDashBoundary;
      var d := config.CrlfDashBoundary();
      if |d| > BufSize() { return true, true; }
      var pos := BufFind(d);
      if pos < BufSize() {
        FoundFits(Window(), d);
        SliceStart(buf, bufSpos, bufEpos, pos);
        events := events + [Data(buf[bufSpos..bufSpos + pos])];
        BufErase(pos + |d|);
        state := 4;
        return false, true;
      }
      var len := BufSize() - |d|;
      if len > 0 {
        SliceStart(buf, bufSpos, bufEpos, len);
        events := events + [Data(buf[bufSpos..bufSpos + len])];
        BufErase(len);
      }
      return true, true;
    }

    method Boundary() returns (stop: bool, ok: bool)
      requires Valid() && state == 4 && Window() != []
      modifies this
      ensures Valid()
      ensures BoundaryStep(config, old(Abs())) == if stop then Return(Abs(), ok) else Continue(Abs())
    {
      hide OccursAt;
      if |CRLF| > BufSize() { return true, true; }
      var crlf := StartWith(bufSpos, CRLF);
      if crlf {
        BufErase(|CRLF|);
        state := 1;
        return false, true;
      }
      if |DASH| > BufSize() { return true, true; }
      var dash := StartWith(bufSpos, DASH);
      if !dash { return true, true; }
      BufErase(|DASH|);
      isValid := true;
      BufErase(BufSize());
      return false, true;
    }

    method Parse(data: bytes) returns (ok: bool)
      requires Valid()
      modifies this
      ensures Valid()
      ensures Feed(config, old(Abs()), data) == Return(Abs(), ok)
    {
      hide OpeningStep, HeadersStep, BodyStep, BoundaryStep;
      BufAppend(data);
      ghost var start := Abs();
      while BufSize() > 0
        invariant Valid()
        invariant Run(config, start) == Run(config, Abs())
        decreases BufSize(), if state == 1 then 1 else 0
      {
        var stop := false;
        if state == 0 { stop, ok := Opening(); }
        else if state == 1 { lines := []; state := 2; }
        else if state == 2 { stop, ok := Headers(); }
        else if state == 3 { stop, ok := Body(); }
        else { stop, ok := Boundary(); }
        if stop { return; }
      }
      return true;
    }
  }
}
