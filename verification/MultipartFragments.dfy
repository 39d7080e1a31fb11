/** The multipart parser fed in pieces, past the opening boundary. Pieces change nothing for an input whose
    header lines are below the limit and whose epilogue cannot be taken for a part in any cut; the
    counterexamples at the end show what else can happen. That the condition is exact is proved in
    `MultipartCuts`. */
module MultipartFragments {
  import opened Bytes
  import opened Multipart

  /** What the callbacks see, without the boundaries between pieces of content. */
  datatype Token = HeaderToken(lines: seq<bytes>) | ContentByte(value: byte)

  function ContentTokens(content: bytes): (r: seq<Token>)
  {
    seq(|content|, i requires 0 <= i < |content| => ContentByte(content[i]))
  }

  function EventTokens(e: Event): (r: seq<Token>)
  {
    match e
    case Header(lines) => [HeaderToken(lines)]
    case Data(content) => ContentTokens(content)
  }

  function Tokens(events: seq<Event>): (r: seq<Token>)
  {
    if events == [] then [] else EventTokens(events[0]) + Tokens(events[1..])
  }

  lemma {:induction false} TokensConcat(a: seq<Event>, b: seq<Event>)
    ensures Tokens(a + b) == Tokens(a) + Tokens(b)
  {
    hide EventTokens;
    if a == [] {
      assert a + b == b;
    } else {
      assert (a + b)[1..] == a[1..] + b;
      TokensConcat(a[1..], b);
      ConcatAssoc(EventTokens(a[0]), Tokens(a[1..]), Tokens(b));
    }
  }

  lemma ContentConcat(a: bytes, b: bytes)
    ensures ContentTokens(a + b) == ContentTokens(a) + ContentTokens(b)
  {
  }

  lemma TokensData(events: seq<Event>, content: bytes)
    ensures Tokens(events + [Data(content)]) == Tokens(events) + ContentTokens(content)
    ensures Tokens(Emit(events, content)) == Tokens(events) + ContentTokens(content)
  {
    TokensConcat(events, [Data(content)]);
    assert [Data(content)][1..] == [];
    assert ContentTokens(content) + [] == ContentTokens(content);
    if content == [] { assert Tokens(events) + ContentTokens(content) == Tokens(events); }
  }

  /** Two parsers whose callbacks saw the same. */
  ghost predicate Same(p: Parser, q: Parser)
  {
    && p.state == q.state && p.window == q.window && p.lines == q.lines && p.valid == q.valid
    && Tokens(p.events) == Tokens(q.events)
  }

  ghost predicate SameResult(r: StepResult, t: StepResult)
  {
    match r
    case Continue(p) => t.Continue? && Same(p, t.next)
    case Return(p, ok) => t.Return? && ok == t.ok && Same(p, t.last)
  }

  // ---------- The events already seen do not matter ----------

  lemma {:induction false} HeaderLinesSame(c: Config, p: Parser, q: Parser)
    requires p.state == 2 && Same(p, q)
    ensures SameResult(HeaderLines(c, p), HeaderLines(c, q))
    decreases |p.window|
  {
    hide Find, OccursAt, Tokens;
    var pos := Find(p.window, CRLF);
    if pos < |p.window| {
      FoundFits(p.window, CRLF);
      if pos == 0 {
        TokensConcat(p.events, [Header(p.lines)]);
        TokensConcat(q.events, [Header(p.lines)]);
      } else if c.headerOk(p.window[..pos]) {
        HeaderLinesSame(c, p.(lines := p.lines + [p.window[..pos]], window := p.window[pos + 2..]),
                        q.(lines := q.lines + [q.window[..pos]], window := q.window[pos + 2..]));
      }
    }
  }

  lemma BodyStepSame(c: Config, p: Parser, q: Parser)
    requires p.state == 3 && Same(p, q)
    ensures SameResult(BodyStep(c, p), BodyStep(c, q))
  {
    hide Find, OccursAt, Tokens;
    var d := c.CrlfDashBoundary();
    if |d| <= |p.window| {
      var pos := Find(p.window, d);
      if pos < |p.window| {
        TokensData(p.events, p.window[..pos]);
        TokensData(q.events, p.window[..pos]);
      } else {
        TokensData(p.events, p.window[..|p.window| - |d|]);
        TokensData(q.events, p.window[..|p.window| - |d|]);
      }
    }
  }

  lemma StepSame(c: Config, p: Parser, q: Parser)
    requires p.state != 0 && p.window != [] && Same(p, q)
    ensures SameResult(Step(c, p), Step(c, q))
  {
    hide Find, OccursAt, Tokens, BodyStep, HeaderLines;
    if p.state == 2 { HeaderLinesSame(c, p, q); }
    if p.state == 3 { BodyStepSame(c, p, q); }
  }

  lemma StepLeavesOpening(c: Config, p: Parser)
    requires p.state != 0 && p.window != [] && Step(c, p).Continue?
    ensures Step(c, p).next.state != 0
  {
    hide Find, OccursAt;
    if p.state == 2 { HeaderLinesEnds(c, p); }
  }

  lemma {:induction false} HeaderLinesEnds(c: Config, p: Parser)
    requires p.state == 2
    ensures HeaderLines(c, p).Continue? ==> HeaderLines(c, p).next.state == 3 && HeaderLines(c, p).next.valid == p.valid
    ensures HeaderLines(c, p).Return? && HeaderLines(c, p).ok ==>
              HeaderLines(c, p).last.state == 2 && HeaderLines(c, p).last.valid == p.valid
    decreases |p.window|
  {
    hide Find, OccursAt;
    var pos := Find(p.window, CRLF);
    if pos < |p.window| {
      FoundFits(p.window, CRLF);
      if pos != 0 && c.headerOk(p.window[..pos]) {
        HeaderLinesEnds(c, p.(lines := p.lines + [p.window[..pos]], window := p.window[pos + 2..]));
      }
    }
  }

  lemma {:induction false} RunSame(c: Config, p: Parser, q: Parser)
    requires p.state != 0 && Same(p, q)
    ensures SameResult(Run(c, p), Run(c, q))
    decreases |p.window|, if p.state == 1 then 1 else 0
  {
    hide Step, Tokens;
    if p.window != [] {
      StepSame(c, p, q);
      if Step(c, p).Continue? {
        StepLeavesOpening(c, p);
        RunSame(c, Step(c, p).next, Step(c, q).next);
      }
    }
  }

  // ---------- More bytes behind the window ----------

  function More(p: Parser, b: bytes): (q: Parser)
  {
    p.(window := p.window + b)
  }

  /** The header loop goes on where it stopped. */
  lemma {:induction false} HeaderLinesMore(c: Config, p: Parser, b: bytes)
    requires p.state == 2
    ensures HeaderLines(c, p).Continue? ==> HeaderLines(c, More(p, b)) == Continue(More(HeaderLines(c, p).next, b))
    ensures HeaderLines(c, p).Return? && HeaderLines(c, p).ok ==>
              HeaderLines(c, p).last.state == 2 &&
              HeaderLines(c, More(p, b)) == HeaderLines(c, More(HeaderLines(c, p).last, b))
    decreases |p.window|
  {
    hide Find, OccursAt;
    var w, pos := p.window, Find(p.window, CRLF);
    if pos < |w| {
      FoundFits(w, CRLF);
      FindInPrefix(w, b, CRLF);
      SlicePrefix(w, b, pos);
      SlicePrefix(w, b, pos + 2);
      if pos != 0 && c.headerOk(w[..pos]) {
        var next := p.(lines := p.lines + [w[..pos]], window := w[pos + 2..]);
        HeaderLinesMore(c, next, b);
        assert HeaderLines(c, More(p, b)) == HeaderLines(c, More(next, b));
      }
    }
  }

  /** The limit is on the first line only; a window without a line end has not moved. */
  lemma HeadersStepMore(c: Config, p: Parser, b: bytes)
    requires p.state == 2
    ensures HeadersStep(c, p).Continue? ==> HeadersStep(c, More(p, b)) == Continue(More(HeadersStep(c, p).next, b))
    ensures HeadersStep(c, p).Return? && HeadersStep(c, p).ok ==>
              HeadersStep(c, p).last.state == 2 &&
              var more := HeadersStep(c, More(HeadersStep(c, p).last, b));
              more == Return(More(HeadersStep(c, p).last, b), false) || HeadersStep(c, More(p, b)) == more
  {
    HeaderLinesMore(c, p, b);
    HeaderLinesEnds(c, p);
    hide Find, OccursAt;
    var w := p.window;
    if Find(w, CRLF) < |w| {
      FindInPrefix(w, b, CRLF);
      hide HeaderLines;
    } else {
      assert HeaderLines(c, p) == Return(p, true);
    }
  }

  /** Content cut in two is the same content. */
  lemma BodyStepMore(c: Config, p: Parser, b: bytes)
    requires p.state == 3
    ensures BodyStep(c, p).Continue? ==> BodyStep(c, More(p, b)) == Continue(More(BodyStep(c, p).next, b))
    ensures BodyStep(c, p).Return? ==>
              SameResult(BodyStep(c, More(p, b)), BodyStep(c, More(BodyStep(c, p).last, b)))
  {
    hide Find, OccursAt, Tokens, Config.CrlfDashBoundary;
    var w, d := p.window, c.CrlfDashBoundary();
    if |d| > |w| {
    } else if Find(w, d) < |w| {
      FoundFits(w, d);
      FindInPrefix(w, b, d);
      SlicePrefix(w, b, Find(w, d));
      SlicePrefix(w, b, Find(w, d) + |d|);
    } else {
      BodyCut(c, p, b);
    }
  }

  lemma BodyCut(c: Config, p: Parser, b: bytes)
    requires p.state == 3 && |c.CrlfDashBoundary()| <= |p.window|
    requires Find(p.window, c.CrlfDashBoundary()) == |p.window|
    ensures SameResult(BodyStep(c, More(p, b)), BodyStep(c, More(BodyStep(c, p).last, b)))
  {
    hide Find, OccursAt, Tokens, Config.CrlfDashBoundary;
    var w, d := p.window, c.CrlfDashBoundary();
    var len := |w| - |d|;
    var front, back := w[..len], w[len..];
    assert front + back == w;
    ConcatAssoc(front, back, b);
    FindAcross(front, back, b, d);
    var t := back + b;
    var f := Find(t, d);
    var events := Emit(p.events, front);
    if f < |t| {
      FoundFits(t, d);
      SliceSuffix(front, t, f);
      SliceSuffix(front, t, f + |d|);
      EmitTwice(p.events, front, t[..f]);
      TokensData(p.events, front + t[..f]);
      TokensData(events, t[..f]);
    } else {
      SliceSuffix(front, t, |t| - |d|);
      EmitTwice(p.events, front, t[..|t| - |d|]);
    }
  }

  lemma EmitTwice(events: seq<Event>, a: bytes, b: bytes)
    ensures Tokens(Emit(Emit(events, a), b)) == Tokens(Emit(events, a + b))
  {
    hide Tokens, ContentTokens, Emit;
    TokensData(events, a);
    TokensData(Emit(events, a), b);
    TokensData(events, a + b);
    ContentConcat(a, b);
    ConcatAssoc(Tokens(events), ContentTokens(a), ContentTokens(b));
  }

  /** A step of state 4 that does not end the form needs two bytes and looks at no more. */
  lemma BoundaryStepMore(c: Config, p: Parser, b: bytes)
    requires p.state == 4 && p.window != []
    ensures BoundaryStep(c, p).Continue? && !BoundaryStep(c, p).next.valid ==>
              BoundaryStep(c, More(p, b)) == Continue(More(BoundaryStep(c, p).next, b))
    ensures BoundaryStep(c, p).Return? ==> BoundaryStep(c, p) == Return(p, true)
  {
    hide OccursAt;
    var w := p.window;
    if |w| >= 2 {
      OccursInPrefix(w, b, CRLF, 0);
      OccursInPrefix(w, b, DASH, 0);
      SlicePrefix(w, b, 2);
    }
  }

  lemma StepMoreContinues(c: Config, p: Parser, b: bytes)
    requires p.state != 0 && p.window != [] && Step(c, p).Continue? && !Step(c, p).next.valid
    ensures Step(c, More(p, b)) == Continue(More(Step(c, p).next, b))
  {
    hide Find, OccursAt, HeadersStep, BodyStep, BoundaryStep;
    if p.state == 2 { HeadersStepMore(c, p, b); }
    if p.state == 3 { BodyStepMore(c, p, b); }
    if p.state == 4 { BoundaryStepMore(c, p, b); }
  }

  lemma StepMoreReturns(c: Config, p: Parser, b: bytes)
    requires p.state != 0 && p.window != [] && Step(c, p).Return? && Step(c, p).ok
    requires Step(c, p).last.window + b != []
    ensures var more := Step(c, More(Step(c, p).last, b));
            more == Return(More(Step(c, p).last, b), false) || SameResult(Step(c, More(p, b)), more)
    ensures Step(c, p).last.state == p.state
  {
    hide Find, OccursAt, Tokens, HeadersStep, BodyStep, BoundaryStep;
    if p.state == 2 { HeadersStepMore(c, p, b); }
    if p.state == 3 {
      BodyStepMore(c, p, b);
      BodyStepStays(c, p);
    }
    if p.state == 4 { BoundaryStepMore(c, p, b); }
  }

  lemma BodyStepStays(c: Config, p: Parser)
    requires p.state == 3
    ensures BodyStep(c, p).Return? ==>
              BodyStep(c, p).ok && BodyStep(c, p).last.state == 3 && BodyStep(c, p).last.valid == p.valid
  {
    hide Find, OccursAt;
  }

  // ---------- Whole calls ----------

  lemma StepKeepsValid(c: Config, p: Parser)
    requires p.state != 0 && p.window != [] && p.valid
    ensures Step(c, p).Continue? ==> Step(c, p).next.valid
    ensures Step(c, p).Return? && Step(c, p).ok ==> Step(c, p).last.valid
  {
    hide Find, OccursAt;
    if p.state == 2 { HeaderLinesEnds(c, p); }
  }

  lemma {:induction false} RunEnds(c: Config, p: Parser)
    requires p.state != 0 && Run(c, p).ok
    ensures Run(c, p).last.state != 0
    ensures p.valid ==> Run(c, p).last.valid
    decreases |p.window|, if p.state == 1 then 1 else 0
  {
    hide Step;
    if p.window != [] {
      if p.valid { StepKeepsValid(c, p); }
      if Step(c, p).Continue? {
        StepLeavesOpening(c, p);
        RunEnds(c, Step(c, p).next);
      } else {
        StepMoreReturns(c, p, [0]);
      }
    }
  }

  /** Waiting for `b` and then going on comes to what running on with `b` at once comes to. */
  lemma {:induction false} RunMore(c: Config, p: Parser, b: bytes)
    requires p.state != 0 && Run(c, p).ok && !Run(c, p).last.valid
    requires Run(c, More(Run(c, p).last, b)).ok
    ensures SameResult(Run(c, More(p, b)), Run(c, More(Run(c, p).last, b)))
    decreases |p.window|, if p.state == 1 then 1 else 0
  {
    hide Step, Tokens;
    if p.window == [] {
    } else if Step(c, p).Continue? {
      var n := Step(c, p).next;
      StepLeavesOpening(c, p);
      RunEnds(c, n);
      StepMoreContinues(c, p, b);
      RunMore(c, n, b);
    } else {
      var q := Step(c, p).last;
      if q.window + b == [] {
        assert More(p, b) == p && More(q, b) == q by { assert b == []; }
      } else {
        StepMoreReturns(c, p, b);
        AfterStep(c, More(p, b), More(q, b));
      }
    }
  }

  lemma AfterStep(c: Config, p: Parser, q: Parser)
    requires p.state != 0 && q.state != 0 && p.window != [] && q.window != []
    requires SameResult(Step(c, p), Step(c, q))
    ensures SameResult(Run(c, p), Run(c, q))
  {
    hide Step, Tokens;
    if Step(c, p).Continue? {
      StepLeavesOpening(c, p);
      RunSame(c, Step(c, p).next, Step(c, q).next);
    }
  }

  // ---------- Inputs that every cut leaves alone ----------

  /** Every line from here to the empty one, or to the end of the input, is taken and below the limit. */
  predicate ShortLines(c: Config, p: Parser)
    requires p.state == 2
    decreases |p.window|
  {
    var pos := Find(p.window, CRLF);
    if pos >= |p.window| then |p.window| <= HEADER_MAX_LENGTH
    else
      pos < HEADER_MAX_LENGTH &&
      (pos == 0 ||
       (c.headerOk(p.window[..pos]) &&
        ShortLines(c, p.(lines := p.lines + [p.window[..pos]], window := p.window[pos + 2..]))))
  }

  /** State 4 looks at the closing hyphens. */
  predicate Closing(p: Parser)
  {
    p.state == 4 && |p.window| >= 2 && !StartsWith(p.window, CRLF) && StartsWith(p.window, DASH)
  }

  /** What a parser that takes these bytes for header lines does with the first of them: it is taken, is not
      the empty one and stays below the limit, or it has not ended yet. */
  predicate NextLineOk(c: Config, t: bytes)
  {
    var pos := Find(t, CRLF);
    if pos >= |t| then |t| <= HEADER_MAX_LENGTH else 0 < pos < HEADER_MAX_LENGTH && c.headerOk(t[..pos])
  }

  /** An epilogue that comes to nothing wherever it is cut: behind each of its line ends, where a new piece
      could have the parser take what follows for another part, no header block is refused or ends. */
  predicate Harmless(c: Config, e: bytes)
  {
    forall k: nat :: k < |e| && OccursAt(e, CRLF, k) ==> NextLineOk(c, e[k + 2..])
  }

  lemma HarmlessSuffix(c: Config, a: bytes, e: bytes)
    requires Harmless(c, a + e)
    ensures Harmless(c, e)
  {
    hide NextLineOk, OccursAt;
    forall k: nat | k < |e| && OccursAt(e, CRLF, k) ensures k + 2 <= |e| && NextLineOk(c, e[k + 2..]) {
      OccursFits(e, CRLF, k);
      SliceSuffix(a, e, 0);
      OccursInSuffix(a + e, |a|, CRLF, k);
      SliceSuffix(a, e, k + 2);
    }
  }

  lemma OccursFits(s: bytes, d: bytes, k: nat)
    requires OccursAt(s, d, k)
    ensures k + |d| <= |s|
  {
  }

  /** What can be said of an input before it is parsed in pieces: seen as a whole it has header lines below
      the limit only, and a harmless epilogue. */
  predicate Smooth(c: Config, p: Parser)
    requires p.state != 0
    decreases |p.window|, if p.state == 1 then 1 else 0
  {
    p.window == [] ||
    (&& (p.state == 2 ==> ShortLines(c, p))
     && (Closing(p) ==> Harmless(c, p.window[2..]))
     && (Step(c, p).Continue? && !Step(c, p).next.valid && Step(c, p).next.state != 0 ==>
           Smooth(c, Step(c, p).next)))
  }

  lemma {:induction false} ShortLinesSame(c: Config, p: Parser, q: Parser)
    requires p.state == 2 && q.state == 2 && p.window == q.window
    ensures ShortLines(c, p) == ShortLines(c, q)
    decreases |p.window|
  {
    hide Find, OccursAt;
    var w, pos := p.window, Find(p.window, CRLF);
    if 0 < pos < |w| {
      FoundFits(w, CRLF);
      ShortLinesSame(c, p.(lines := p.lines + [w[..pos]], window := w[pos + 2..]),
                     q.(lines := q.lines + [w[..pos]], window := w[pos + 2..]));
    }
  }

  lemma {:induction false} SmoothSame(c: Config, p: Parser, q: Parser)
    requires p.state != 0 && Same(p, q) && Smooth(c, p)
    ensures Smooth(c, q)
    decreases |p.window|, if p.state == 1 then 1 else 0
  {
    hide Step, Tokens, OccursAt, ShortLines, Harmless;
    if p.window != [] {
      StepSame(c, p, q);
      if p.state == 2 { ShortLinesSame(c, p, q); }
      if Step(c, p).Continue? && !Step(c, p).next.valid {
        StepLeavesOpening(c, p);
        SmoothSame(c, Step(c, p).next, Step(c, q).next);
      }
    }
  }

  /** A line end in the whole leaves no long line end at the cut. */
  lemma LimitHolds(w: bytes, b: bytes)
    requires Find(w + b, CRLF) < HEADER_MAX_LENGTH || Find(w + b, CRLF) == |w + b| <= HEADER_MAX_LENGTH
    ensures Find(w, CRLF) <= HEADER_MAX_LENGTH
  {
    hide Find, OccursAt;
    var pos := Find(w + b, CRLF);
    if Find(w, CRLF) == |w| && pos < |w + b| {
      FoundFits(w + b, CRLF);
      if pos + 2 <= |w| {
        FoundThere(w + b, CRLF);
        OccursInPrefix(w, b, CRLF, pos);
        FindAtMost(w, CRLF, pos);
      }
    } else if Find(w, CRLF) < |w| {
      FindInPrefix(w, b, CRLF);
    }
    FindInRange(w);
    FindInRange(w + b);
  }

  lemma FoundThere(s: bytes, d: bytes)
    requires d != [] && Find(s, d) < |s|
    ensures OccursAt(s, d, Find(s, d))
  {
  }

  lemma FindAtMost(s: bytes, d: bytes, k: nat)
    requires d != [] && OccursAt(s, d, k)
    ensures Find(s, d) <= k
  {
    hide Find, OccursAt;
    if k < Find(s, d) { FindIsFirst(s, d, k); }
  }

  lemma ShortLinesStart(c: Config, p: Parser)
    requires p.state == 2 && ShortLines(c, p)
    ensures Find(p.window, CRLF) < HEADER_MAX_LENGTH || Find(p.window, CRLF) == |p.window| <= HEADER_MAX_LENGTH
  {
    hide Find, OccursAt;
    FindInRange(p.window);
  }

  lemma FindInRange(w: bytes)
    ensures Find(w, CRLF) <= |w|
  {
  }

  lemma {:induction false} ShortLinesMore(c: Config, p: Parser, b: bytes)
    requires p.state == 2 && ShortLines(c, More(p, b))
    ensures HeaderLines(c, p).Return? ==>
              HeaderLines(c, p).ok && HeaderLines(c, p).last.state == 2 && ShortLines(c, More(HeaderLines(c, p).last, b))
    decreases |p.window|
  {
    hide Find, OccursAt;
    var w, pos := p.window, Find(p.window, CRLF);
    if pos < |w| {
      FoundFits(w, CRLF);
      FindInPrefix(w, b, CRLF);
      SlicePrefix(w, b, pos);
      SlicePrefix(w, b, pos + 2);
      if pos != 0 {
        var next := p.(lines := p.lines + [w[..pos]], window := w[pos + 2..]);
        assert ShortLines(c, More(next, b));
        ShortLinesMore(c, next, b);
      }
    }
  }

  /** Before the cut nothing is refused, and behind it the input is as it was. */
  lemma HeadersStepSmooth(c: Config, p: Parser, b: bytes)
    requires p.state == 2 && ShortLines(c, More(p, b))
    ensures HeadersStep(c, p).Return? ==>
              HeadersStep(c, p).ok && HeadersStep(c, p).last.state == 2 && HeadersStep(c, p).last.valid == p.valid
              && ShortLines(c, More(HeadersStep(c, p).last, b))
              && HeadersStep(c, More(p, b)) == HeadersStep(c, More(HeadersStep(c, p).last, b))
  {
    ShortLinesStart(c, More(p, b));
    LimitHolds(p.window, b);
    ShortLinesMore(c, p, b);
    HeaderLinesMore(c, p, b);
    HeaderLinesEnds(c, p);
    hide Find, OccursAt, HeaderLines;
    if HeadersStep(c, p).Return? { ShortLinesStart(c, More(HeadersStep(c, p).last, b)); }
    hide ShortLines;
  }

  lemma StepSmooth(c: Config, p: Parser)
    requires p.state != 0 && p.window != [] && Smooth(c, p) && !p.valid
    ensures Step(c, p).Return? ==> Step(c, p).ok && Step(c, p).last.state == p.state && !Step(c, p).last.valid
    ensures Step(c, p).Continue? && Step(c, p).next.valid ==> Step(c, p).next == p.(window := [], valid := true) && Closing(p)
    ensures Step(c, p).Continue? ==> Step(c, p).next.state != 0
  {
    hide Find, OccursAt, HeadersStep;
    assert More(p, []) == p by { assert p.window + [] == p.window; }
    if p.state == 2 {
      HeadersStepSmooth(c, p, []);
      if HeadersStep(c, p).Continue? { HeadersStepEnds(c, p); }
    }
  }

  lemma HeadersStepEnds(c: Config, p: Parser)
    requires p.state == 2 && HeadersStep(c, p).Continue?
    ensures HeadersStep(c, p).next.state == 3 && HeadersStep(c, p).next.valid == p.valid
  {
    HeaderLinesEnds(c, p);
    hide Find, OccursAt, HeaderLines;
  }

  lemma {:induction false} SmoothIsAccepted(c: Config, p: Parser)
    requires p.state != 0 && Smooth(c, p) && !p.valid
    ensures Run(c, p).ok
    decreases |p.window|, if p.state == 1 then 1 else 0
  {
    hide Step, Closing, ShortLines;
    if p.window != [] {
      StepSmooth(c, p);
      if Step(c, p).Continue? && !Step(c, p).next.valid { SmoothIsAccepted(c, Step(c, p).next); }
    }
  }

  lemma ClosingMore(c: Config, p: Parser, b: bytes)
    requires Closing(p) && Smooth(c, More(p, b))
    ensures Harmless(c, b) && Step(c, More(p, b)) == Step(c, p) == Continue(p.(window := [], valid := true))
  {
    var w := p.window;
    OccursInPrefix(w, b, CRLF, 0);
    OccursInPrefix(w, b, DASH, 0);
    SlicePrefix(w, b, 2);
    hide Find, OccursAt, Harmless;
    assert Closing(More(p, b));
    HarmlessSuffix(c, w[2..], b);
  }

  /** One call on the front part of a smooth input is accepted; it either closes the form or leaves the
      rest smooth, with the same outcome to come. */
  lemma {:induction false} SmoothCut(c: Config, p: Parser, b: bytes)
    requires p.state != 0 && !p.valid && Smooth(c, More(p, b))
    ensures Run(c, p).ok && Run(c, p).last.state != 0
    ensures Run(c, p).last.valid ==>
              Run(c, p).last.state == 4 && Run(c, p).last.window == [] && Harmless(c, b)
              && Run(c, More(p, b)).ok && Same(Run(c, More(p, b)).last, Run(c, p).last)
    ensures !Run(c, p).last.valid ==> Smooth(c, More(Run(c, p).last, b))
    decreases |p.window|, if p.state == 1 then 1 else 0
  {
    hide Step, Tokens, Closing, ShortLines, Harmless;
    if p.window != [] {
      if Step(c, p).Continue? {
        var n := Step(c, p).next;
        StepLeavesOpening(c, p);
        if n.valid {
          ValidIsClosing(c, p);
          ClosingMore(c, p, b);
        } else {
          StepMoreContinues(c, p, b);
          SmoothCut(c, n, b);
        }
      } else {
        ReturnSmooth(c, p, b);
      }
    }
  }

  lemma ValidIsClosing(c: Config, p: Parser)
    requires p.state != 0 && p.window != [] && !p.valid && Step(c, p).Continue? && Step(c, p).next.valid
    ensures Closing(p) && p.state == 4
  {
    hide Find, OccursAt, HeadersStep;
    if p.state == 2 { HeadersStepEnds(c, p); }
  }

  lemma ReturnSmooth(c: Config, p: Parser, b: bytes)
    requires p.state != 0 && p.window != [] && !p.valid && Step(c, p).Return? && Smooth(c, More(p, b))
    ensures Step(c, p).ok && Step(c, p).last.state == p.state && !Step(c, p).last.valid
    ensures Smooth(c, More(Step(c, p).last, b))
  {
    hide Find, OccursAt, HeadersStep, BodyStep, ShortLines, Tokens;
    if p.state == 2 {
      HeadersStepSmooth(c, p, b);
    } else if p.state == 3 {
      BodyStepMore(c, p, b);
      BodyStepStays(c, p);
      BodySmooth(c, More(p, b), More(BodyStep(c, p).last, b));
    } else {
      BoundaryStepMore(c, p, b);
    }
  }

  lemma BodySmooth(c: Config, p: Parser, q: Parser)
    requires p.state == 3 && q.state == 3 && SameResult(BodyStep(c, p), BodyStep(c, q)) && Smooth(c, p)
    requires p.window != []
    ensures Smooth(c, q)
  {
    hide BodyStep, Tokens, Find, OccursAt, ShortLines;
    if q.window != [] && Step(c, q).Continue? && !Step(c, q).next.valid && Step(c, q).next.state != 0 {
      assert Smooth(c, Step(c, p).next);
      SmoothSame(c, Step(c, p).next, Step(c, q).next);
    }
  }

  /** Behind the closing hyphens, perhaps taking lines of the epilogue for headers, with a harmless rest. */
  predicate Closed(c: Config, q: Parser, rest: bytes)
  {
    q.valid && Harmless(c, q.window + rest)
    && (q.state == 4 || ((q.state == 1 || q.state == 2) && NextLineOk(c, q.window + rest)))
  }

  /** Header lines of a harmless epilogue are taken, and the header block does not end. */
  lemma {:induction false} HeaderLinesClosed(c: Config, p: Parser, b: bytes)
    requires p.state == 2 && Closed(c, p, b)
    ensures var r := HeaderLines(c, p);
            r.Return? && r.ok && r.last.state == 2 && Closed(c, r.last, b) && r.last.events == p.events
    decreases |p.window|
  {
    hide Find, OccursAt;
    var w, pos := p.window, Find(p.window, CRLF);
    if pos < |w| {
      FoundFits(w, CRLF);
      FindInPrefix(w, b, CRLF);
      FoundThere(w + b, CRLF);
      SlicePrefix(w, b, pos);
      SlicePrefix(w, b, pos + 2);
      hide NextLineOk;
      assert NextLineOk(c, (w + b)[pos + 2..]);
      SplitAt(w + b, pos + 2);
      HarmlessSuffix(c, (w + b)[..pos + 2], (w + b)[pos + 2..]);
      HeaderLinesClosed(c, p.(lines := p.lines + [w[..pos]], window := w[pos + 2..]), b);
    }
  }

  lemma SplitAt<T>(s: seq<T>, k: nat)
    requires k <= |s|
    ensures s == s[..k] + s[k..]
  {
  }

  lemma HeadersStepClosed(c: Config, p: Parser, b: bytes)
    requires p.state == 2 && Closed(c, p, b)
    ensures var r := HeadersStep(c, p);
            r.Return? && r.ok && r.last.state == 2 && Closed(c, r.last, b) && r.last.events == p.events
  {
    HeaderLinesClosed(c, p, b);
    hide OccursAt, HeaderLines, Harmless;
    FindInRange(p.window + b);
    hide Find;
    LimitHolds(p.window, b);
  }

  lemma BoundaryStepClosed(c: Config, p: Parser, b: bytes)
    requires p.state == 4 && p.window != [] && Closed(c, p, b)
    ensures var r := BoundaryStep(c, p);
            && (r.Continue? ==> Closed(c, r.next, b) && r.next.events == p.events)
            && (r.Return? ==> r == Return(p, true))
  {
    hide Find, NextLineOk;
    var w := p.window;
    if |w| >= 2 {
      ConcatAssoc(w[..2], w[2..], b);
      SplitAt(w, 2);
      if StartsWith(w, CRLF) {
        OccursInPrefix(w, b, CRLF, 0);
        SlicePrefix(w, b, 2);
        HarmlessSuffix(c, w[..2], w[2..] + b);
      } else {
        HarmlessSuffix(c, w, b);
        assert [] + b == b;
      }
    }
  }

  /** Whatever piece of a harmless epilogue comes, nothing is refused or delivered. */
  lemma {:induction false} ClosedRun(c: Config, p: Parser, b: bytes)
    requires Closed(c, p, b)
    ensures Run(c, p).ok && Closed(c, Run(c, p).last, b) && Run(c, p).last.events == p.events
    decreases |p.window|, if p.state == 1 then 1 else 0
  {
    hide HeadersStep, BoundaryStep, Harmless, NextLineOk;
    if p.window != [] {
      if p.state == 4 {
        BoundaryStepClosed(c, p, b);
        if BoundaryStep(c, p).Continue? { ClosedRun(c, BoundaryStep(c, p).next, b); }
      } else if p.state == 1 {
        ClosedRun(c, p.(lines := [], state := 2), b);
      } else {
        HeadersStepClosed(c, p, b);
      }
    }
  }

  /** Closed, and no header block ended behind that. */
  predicate Ended(p: Parser)
  {
    p.valid && (p.state == 4 || p.state == 1 || p.state == 2)
  }

  lemma {:induction false} ClosedFeedAll(c: Config, q: Parser, chunks: seq<bytes>)
    requires Closed(c, q, Flatten(chunks))
    ensures FeedAll(c, q, chunks).ok && Ended(FeedAll(c, q, chunks).last)
    ensures FeedAll(c, q, chunks).last.events == q.events
    decreases |chunks|
  {
    hide Run, Harmless, NextLineOk;
    if chunks != [] {
      FlattenCons(chunks);
      ConcatAssoc(q.window, chunks[0], Flatten(chunks[1..]));
      ClosedRun(c, More(q, chunks[0]), Flatten(chunks[1..]));
      ClosedFeedAll(c, Feed(c, q, chunks[0]).last, chunks[1..]);
    }
  }

  /** Two ways of feeding the same bytes that come to the same: header blocks, content, whether the form is
      finished; and if it is not closed, the whole state. */
  ghost predicate Agree(r: StepResult, t: StepResult)
  {
    && r.Return? && t.Return? && r.ok && t.ok && r.last.valid == t.last.valid
    && Tokens(r.last.events) == Tokens(t.last.events)
    && (t.last.valid ==> Ended(r.last))
    && (!t.last.valid ==> Same(r.last, t.last))
  }

  /** A smooth input is accepted in whatever pieces it comes, and comes to what it does in one. */
  lemma {:induction false} PiecesAgree(c: Config, p: Parser, chunks: seq<bytes>)
    requires p.state != 0 && !p.valid && chunks != [] && Smooth(c, More(p, Flatten(chunks)))
    ensures Agree(FeedAll(c, p, chunks), Feed(c, p, Flatten(chunks)))
    decreases |chunks|
  {
    hide Run, Tokens, Flatten, Smooth, Harmless;
    var a, rest := chunks[0], chunks[1..];
    var f := Flatten(rest);
    FlattenCons(chunks);
    ConcatAssoc(p.window, a, f);
    assert More(More(p, a), f) == More(p, Flatten(chunks));
    SmoothCut(c, More(p, a), f);
    var q := Feed(c, p, a).last;
    if q.valid {
      assert q.window + f == f;
      ClosedFeedAll(c, q, rest);
    } else if rest == [] {
      FlattenNothing();
      assert More(More(p, a), f) == More(p, a) by { assert p.window + a + [] == p.window + a; }
    } else {
      PiecesAgree(c, q, rest);
      SmoothIsAccepted(c, More(q, f));
      RunMore(c, More(p, a), f);
    }
  }

  lemma FlattenNothing()
    ensures Flatten([]) == []
  {
  }

  /** Not so with an epilogue that is not harmless: a line between two line ends is dropped when it comes in
      the same piece as the closing delimiter, and refused when it comes in the next one. */
  lemma EpilogueDependsOnCut(c: Config, p: Parser, line: bytes)
    requires p.state == 4 && p.window == [] && line != [] && 13 !in line && !c.headerOk(line)
    requires |line| <= HEADER_MAX_LENGTH
    ensures Feed(c, p, DASH + (CRLF + (line + (CRLF + [])))) == Return(p.(valid := true), true)
    ensures Feed(c, p, DASH) == Return(p.(valid := true), true)
    ensures var r := Feed(c, p.(valid := true), CRLF + (line + (CRLF + [])));
            !r.ok && !r.last.valid
  {
    var text := line + (CRLF + []);
    var rest := CRLF + text;
    var q := p.(valid := true);
    hide Find, OccursAt;
    EndOfForm(c, p, rest);
    EndOfForm(c, p, []);
    assert DASH + [] == DASH;
    FindLineEnd(line, []);
    assert [] + rest == rest;
    var q1 := q.(window := text, state := 1);
    assert BoundaryStep(c, q.(window := rest)) == Continue(q1) by { NextPart(c, q, text); }
    var q2 := q1.(lines := [], state := 2);
    assert text[..|line|] == line;
    assert HeadersStep(c, q2) == Return(q2.(valid := false), false);
    assert Run(c, q2) == Return(q2.(valid := false), false);
    assert Run(c, q1) == Run(c, q2);
    assert Run(c, q.(window := rest)) == Run(c, q1);
  }

  lemma EndOfForm(c: Config, p: Parser, rest: bytes)
    requires p.state == 4 && p.window == []
    ensures Feed(c, p, DASH + rest) == Return(p.(valid := true), true)
  {
    var w := DASH + rest;
    assert [] + w == w;
    assert w[0..2] == DASH && CRLF[0] != DASH[0];
    assert !StartsWith(w, CRLF) && StartsWith(w, DASH);
    var done := p.(valid := true);
    assert BoundaryStep(c, p.(window := w)) == Continue(done);
    hide Find, OccursAt;
    assert Run(c, done) == Return(done, true);
    assert Run(c, p.(window := w)) == Run(c, done);
  }

  lemma NextPart(c: Config, p: Parser, text: bytes)
    requires p.state == 4
    ensures BoundaryStep(c, p.(window := CRLF + text)) == Continue(p.(window := text, state := 1))
  {
    var w := CRLF + text;
    assert w[0..2] == CRLF && w[2..] == text;
  }

  /** A header line over the limit is accepted behind a line of the same piece, and refused when a piece
      starts with it. */
  lemma LimitDependsOnCut(c: Config, p: Parser, line: bytes, long: bytes)
    requires p.state == 2 && p.window == []
    requires line != [] && 13 !in line && c.headerOk(line) && |line| <= HEADER_MAX_LENGTH
    requires 13 !in long && c.headerOk(long) && |long| > HEADER_MAX_LENGTH
    ensures Feed(c, p, line + (CRLF + (long + (CRLF + [])))).ok
    ensures Feed(c, p, line + (CRLF + [])) == Return(p.(lines := p.lines + [line]), true)
    ensures !Feed(c, p.(lines := p.lines + [line]), long + (CRLF + [])).ok
  {
    hide Find, OccursAt;
    var tail := long + (CRLF + []);
    var q := p.(lines := p.lines + [line]);
    assert forall w: bytes :: [] + w == w;
    FindLineEnd(line, tail);
    FindLineEnd(line, []);
    FindLineEnd(long, []);
    HeaderLineStep(c, p.(window := line + (CRLF + tail)), line, tail);
    HeaderLineStep(c, p.(window := line + (CRLF + [])), line, []);
    HeaderLineStep(c, q.(window := tail), long, []);
    NothingFound();
    assert q.(window := []) == q;
    assert HeaderLines(c, q) == Return(q, true);
    assert HeaderLines(c, p.(window := line + (CRLF + tail))).ok;
  }

  /** A piece over the limit without a line end is refused in a header block. */
  lemma LongPieceRefused(c: Config, q: Parser, w: bytes)
    requires (q.state == 1 || q.state == 2) && q.window == []
    requires Find(w, CRLF) == |w| > HEADER_MAX_LENGTH
    ensures !Feed(c, q, w).ok
  {
    hide Find, OccursAt;
    assert [] + w == w;
    var p2 := q.(window := w, lines := if q.state == 1 then [] else q.lines, state := 2);
    assert HeadersStep(c, p2) == Return(p2, false);
    assert Run(c, p2) == Return(p2, false);
    assert q.state == 1 ==> Run(c, q.(window := w)) == Run(c, p2);
    assert q.state == 2 ==> q.(window := w) == p2;
  }

  lemma NothingFound()
    ensures Find([], CRLF) == 0
  {
  }
}
