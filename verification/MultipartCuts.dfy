/** The cuts that harm an input: the conditions of `MultipartFragments` are needed, not only enough. */
module MultipartCuts {
  import opened Bytes
  import opened Multipart
  import opened MultipartFragments

  function Emptied(p: Parser): (q: Parser)
  {
    p.(window := [])
  }

  lemma FeedAllCons(c: Config, p: Parser, piece: bytes, q: Parser, pieces: seq<bytes>)
    requires Feed(c, p, piece) == Return(q, true)
    ensures FeedAll(c, p, [piece] + pieces) == FeedAll(c, q, pieces)
    ensures Flatten([piece] + pieces) == piece + Flatten(pieces)
  {
    hide Feed;
    assert ([piece] + pieces)[1..] == pieces;
  }

  lemma OnePiece(c: Config, p: Parser, piece: bytes)
    ensures FeedAll(c, p, [piece]).ok == Feed(c, p, piece).ok
    ensures FeedAll(c, p, [piece]).last == Feed(c, p, piece).last
    ensures Flatten([piece]) == piece
  {
    hide Feed;
    assert [piece][1..] == [];
  }

  lemma TwoPieces(a: bytes, b: bytes)
    ensures Flatten([a, b]) == a + b
  {
    var last: seq<bytes> := [b];
    assert last[1..] == [] && [a, b][1..] == last;
    assert Flatten(last) == b;
  }

  /** What is searched for is found where it was in the front part that ends with it. */
  lemma FindInFront(w: bytes, d: bytes)
    requires d != [] && Find(w, d) < |w|
    ensures Find(w, d) + |d| <= |w| && Find(w[..Find(w, d) + |d|], d) == Find(w, d)
  {
    hide Find;
    var pos := Find(w, d);
    FoundFits(w, d);
    FoundThere(w, d);
    var u := w[..pos + |d|];
    SplitAt(w, pos + |d|);
    OccursInPrefix(u, w[pos + |d|..], d, pos);
    FindAtMost(u, d, pos);
    FindInPrefix(u, w[pos + |d|..], d);
  }

  // ---------- Header lines ----------

  lemma BadLineRefused(c: Config, p: Parser, w: bytes)
    requires (p.state == 1 || p.state == 2) && p.window == []
    requires 0 < Find(w, CRLF) < |w| && Find(w, CRLF) <= HEADER_MAX_LENGTH && !c.headerOk(w[..Find(w, CRLF)])
    ensures !Feed(c, p, w).ok
  {
    hide Find, OccursAt;
    assert [] + w == w;
    var p2 := p.(window := w, lines := if p.state == 1 then [] else p.lines, state := 2);
    assert HeaderLines(c, p2) == Return(p2.(valid := false), false);
    assert !Run(c, p2).ok;
    assert p.state == 1 ==> Run(c, p.(window := w)) == Run(c, p2);
    assert p.state == 2 ==> p.(window := w) == p2;
  }

  lemma NoLineEndBefore(t: bytes)
    requires Find(t, CRLF) < |t|
    ensures Find(t, CRLF) + 1 <= |t| && Find(t[..Find(t, CRLF) + 1], CRLF) == Find(t, CRLF) + 1
  {
    hide Find, OccursAt;
    var n := Find(t, CRLF) + 1;
    var u := t[..n];
    SplitAt(t, n);
    if Find(u, CRLF) < |u| {
      FoundFits(u, CRLF);
      FindInPrefix(u, t[n..], CRLF);
    }
    FindInRange(u);
  }

  /** No line end in it yet, and within the limit: what a header block can hold back. */
  predicate Unended(w: bytes)
  {
    Find(w, CRLF) == |w| <= HEADER_MAX_LENGTH
  }

  lemma UnendedNothing()
    ensures Unended([])
  {
  }

  /** A first line that is not taken, or that reaches the limit, is refused: at once, or cut inside its
      line end; in any case behind what can be held back. */
  lemma BadLineCut(c: Config, p: Parser, t: bytes, w: bytes) returns (pieces: seq<bytes>)
    requires (p.state == 1 || p.state == 2) && p.window == []
    requires !NextLineOk(c, t) && Find(t, CRLF) != 0 && w <= t && Unended(w)
    ensures pieces != [] && |pieces[0]| > |w| && Flatten(pieces) == t && !FeedAll(c, p, pieces).ok
  {
    hide Find, OccursAt, Feed;
    var pos := Find(t, CRLF);
    FindInRange(t);
    assert |w| == |t| ==> w == t;
    if pos < |t| && pos >= HEADER_MAX_LENGTH {
      pieces := [t[..pos + 1], t[pos + 1..]];
      NoLineEndBefore(t);
      LongPieceRefused(c, p, t[..pos + 1]);
      TwoPieces(t[..pos + 1], t[pos + 1..]);
      SplitAt(t, pos + 1);
    } else {
      pieces := [t];
      OnePiece(c, p, t);
      if pos < |t| { BadLineRefused(c, p, t); } else { LongPieceRefused(c, p, t); }
    }
  }

  /** The parser behind one header line. */
  function BehindLine(p: Parser, pos: nat): (q: Parser)
    requires pos + 2 <= |p.window|
  {
    p.(lines := p.lines + [p.window[..pos]], window := p.window[pos + 2..])
  }

  lemma LineTaken(c: Config, p: Parser)
    requires p.state == 2 && 0 < Find(p.window, CRLF) < |p.window| && Find(p.window, CRLF) <= HEADER_MAX_LENGTH
    requires c.headerOk(p.window[..Find(p.window, CRLF)])
    ensures Find(p.window, CRLF) + 2 <= |p.window|
    ensures Feed(c, Emptied(p), p.window[..Find(p.window, CRLF) + 2])
         == Return(Emptied(BehindLine(p, Find(p.window, CRLF))), true)
  {
    hide Find, OccursAt;
    var pos := Find(p.window, CRLF);
    FindInFront(p.window, CRLF);
    var u := p.window[..pos + 2];
    var p1, q := p.(window := u), Emptied(BehindLine(p, pos));
    assert [] + u == u && u[..pos] == p.window[..pos] && u[pos + 2..] == [];
    NothingFound();
    assert HeaderLines(c, q) == Return(q, true);
    assert HeaderLines(c, p1) == HeaderLines(c, q);
    assert Run(c, p1) == Return(q, true);
  }

  /** Line by line, up to the one that is not taken or reaches the limit. */
  lemma {:induction false} HeadersCut(c: Config, p: Parser, held: bytes) returns (pieces: seq<bytes>)
    requires p.state == 2 && !ShortLines(c, p) && held <= p.window && Unended(held)
    ensures pieces != [] && |pieces[0]| > |held| && Flatten(pieces) == p.window
    ensures !FeedAll(c, Emptied(p), pieces).ok
    decreases |p.window|
  {
    hide Find, OccursAt, Feed;
    var w, pos := p.window, Find(p.window, CRLF);
    if !NextLineOk(c, w) {
      FindInRange(w);
      pieces := BadLineCut(c, Emptied(p), w, held);
    } else {
      LineTaken(c, p);
      UnendedNothing();
      LineEndBehind(w, held);
      var more := HeadersCut(c, BehindLine(p, pos), []);
      hide FeedAll, Flatten;
      FeedAllCons(c, Emptied(p), w[..pos + 2], Emptied(BehindLine(p, pos)), more);
      SplitAt(w, pos + 2);
      pieces := [w[..pos + 2]] + more;
    }
  }

  lemma LineEndBehind(w: bytes, held: bytes)
    requires held <= w && Unended(held) && Find(w, CRLF) < |w|
    ensures Find(w, CRLF) + 2 > |held|
  {
    hide Find, OccursAt;
    var pos := Find(w, CRLF);
    FoundThere(w, CRLF);
    if pos + 2 <= |held| {
      SplitAt(w, |held|);
      assert w[..|held|] == held;
      OccursInPrefix(held, w[|held|..], CRLF, pos);
      FindAtMost(held, CRLF, pos);
    }
  }

  // ---------- The epilogue ----------

  lemma {:induction false} HeaderLinesGrow(c: Config, p: Parser)
    requires p.state == 2
    ensures HeaderLines(c, p).Return? ==> p.events <= HeaderLines(c, p).last.events
    ensures HeaderLines(c, p).Continue? ==> p.events <= HeaderLines(c, p).next.events
    decreases |p.window|
  {
    hide Find, OccursAt;
    var pos := Find(p.window, CRLF);
    if 0 < pos < |p.window| && c.headerOk(p.window[..pos]) {
      FoundFits(p.window, CRLF);
      HeaderLinesGrow(c, BehindLine(p, pos));
    }
  }

  /** What is delivered stays delivered. */
  lemma {:induction false} RunGrows(c: Config, p: Parser)
    requires p.state != 0
    ensures p.events <= Run(c, p).last.events
    decreases |p.window|, if p.state == 1 then 1 else 0
  {
    hide Find, OccursAt, HeaderLines;
    if p.window != [] {
      if p.state == 2 {
        HeaderLinesGrow(c, p);
        HeaderLinesEnds(c, p);
      }
      if Step(c, p).Continue? { RunGrows(c, Step(c, p).next); }
    }
  }

  lemma LineEndOpensPart(c: Config, p: Parser)
    requires p.state == 4 && p.window == []
    ensures Feed(c, p, CRLF) == Return(p.(state := 1), true)
  {
    assert CRLF + [] == CRLF && [] + CRLF == CRLF;
    NextPart(c, p, []);
    var q := p.(state := 1);
    assert Run(c, q) == Return(q, true);
    hide BoundaryStep;
    assert Run(c, p.(window := CRLF)) == Run(c, q);
  }

  /** A header block that ends at once is delivered. */
  lemma EmptyLineDelivers(c: Config, p: Parser, t: bytes)
    requires p.state == 1 && p.window == [] && Find(t, CRLF) == 0 && t != []
    ensures |Tokens(Feed(c, p, t).last.events)| > |Tokens(p.events)|
  {
    hide Find, OccursAt, Tokens;
    FoundFits(t, CRLF);
    assert [] + t == t;
    var p2 := p.(window := t, lines := [], state := 2);
    var p3 := p2.(events := p.events + [Header([])], window := t[2..], state := 3);
    assert HeaderLines(c, p2) == Continue(p3);
    assert Run(c, p2) == Run(c, p3);
    assert Run(c, p.(window := t)) == Run(c, p2);
    RunGrows(c, p3);
    hide Run;
    MoreTokens(p.events, Feed(c, p, t).last.events);
  }

  lemma MoreTokens(events: seq<Event>, more: seq<Event>)
    requires events + [Header([])] <= more
    ensures |Tokens(more)| > |Tokens(events)|
  {
    var here := events + [Header([])];
    SplitAt(more, |here|);
    assert more[..|here|] == here;
    TokensConcat(here, more[|here|..]);
    TokensConcat(events, [Header([])]);
    assert [Header([])][1..] == [];
  }

  /** Accepted and closed, with nothing more delivered. */
  ghost predicate Unharmed(c: Config, p: Parser, chunks: seq<bytes>)
  {
    var r := FeedAll(c, p, chunks);
    r.ok && r.last.valid && Tokens(r.last.events) == Tokens(p.events)
  }

  /** Where a line end of the epilogue has no harmless line behind it, a cut before that line end does the
      harm: the first piece is closed and dropped there, the next one opens a part. */
  lemma EpilogueCut(c: Config, p: Parser, e: bytes) returns (pieces: seq<bytes>)
    requires p.state == 4 && p.window == [] && !Harmless(c, e)
    ensures pieces != [] && |pieces[0]| >= 2 && Flatten(pieces) == DASH + e && !Unharmed(c, p, pieces)
  {
    hide Find, Feed, Tokens, NextLineOk, FeedAll, Flatten;
    var k: nat :| k < |e| && OccursAt(e, CRLF, k) && !NextLineOk(c, e[k + 2..]);
    assert e[k..k + 2] == CRLF;
    hide OccursAt;
    var t := e[k + 2..];
    var q := p.(valid := true);
    EndOfForm(c, p, e[..k]);
    LineEndOpensPart(c, q);
    var last: seq<bytes>;
    if Find(t, CRLF) == 0 {
      NotNothing(c, t);
      EmptyLineDelivers(c, q.(state := 1), t);
      OnePiece(c, q.(state := 1), t);
      last := [t];
    } else {
      UnendedNothing();
      last := BadLineCut(c, q.(state := 1), t, []);
    }
    FeedAllCons(c, q, CRLF, q.(state := 1), last);
    FeedAllCons(c, p, DASH + e[..k], q, [CRLF] + last);
    pieces := [DASH + e[..k]] + ([CRLF] + last);
    assert e == e[..k] + (CRLF + t);
    ConcatAssoc(DASH, e[..k], CRLF + t);
  }

  lemma NotNothing(c: Config, t: bytes)
    requires !NextLineOk(c, t)
    ensures t != []
  {
  }

  /** An epilogue comes to nothing however it is cut, from the closing hyphens on, if and only if it is
      harmless. */
  lemma EpilogueExactly(c: Config, p: Parser, e: bytes)
    requires p.state == 4 && p.window == []
    ensures Harmless(c, e) <==> forall chunks :: Flatten(chunks) == DASH + e ==> Unharmed(c, p, chunks)
  {
    hide Harmless, Unharmed, Flatten;
    if Harmless(c, e) {
      forall chunks | Flatten(chunks) == DASH + e ensures Unharmed(c, p, chunks) {
        HarmlessPieces(c, p, e, chunks);
      }
    } else {
      var pieces := EpilogueCut(c, p, e);
    }
  }

  lemma HarmlessPieces(c: Config, p: Parser, e: bytes, chunks: seq<bytes>)
    requires p.state == 4 && p.window == [] && Harmless(c, e) && Flatten(chunks) == DASH + e
    ensures Unharmed(c, p, chunks)
  {
    var w := DASH + e;
    assert [] + w == w && w != [];
    HyphensHarmless(c, e);
    hide Run, Tokens, Harmless, FeedAll;
    if p.valid {
      ClosedFeedAll(c, p, chunks);
    } else {
      EndOfForm(c, p, e);
      ClosingHyphens(p.(window := w), e);
      assert Smooth(c, p.(window := w)) by { EndSmooth(c, p.(window := w), e); }
      FlattenNothing();
      hide Flatten, Smooth;
      PiecesAgree(c, p, chunks);
    }
  }

  lemma HyphensHarmless(c: Config, e: bytes)
    requires Harmless(c, e)
    ensures Harmless(c, DASH + e)
  {
    hide NextLineOk;
    var w := DASH + e;
    forall k: nat | k < |w| && OccursAt(w, CRLF, k) ensures NextLineOk(c, w[k + 2..]) {
      assert w[k..k + 2][0] == w[k];
      assert k >= 2;
      SliceSuffix(DASH, e, 0);
      OccursInSuffix(w, 2, CRLF, k - 2);
      SliceSuffix(DASH, e, k);
    }
  }

  lemma ClosingHyphens(p: Parser, e: bytes)
    requires p.state == 4 && p.window == DASH + e
    ensures Closing(p) && p.window[2..] == e
  {
    assert p.window[0..2] == DASH && CRLF[0] != DASH[0];
  }

  lemma EndSmooth(c: Config, p: Parser, e: bytes)
    requires Closing(p) && p.window == DASH + e && Harmless(c, e)
    ensures Smooth(c, p)
  {
    ClosingHyphens(p, e);
    hide Find, OccursAt, Harmless;
    assert Step(c, p).next.valid;
  }

  // ---------- All inputs ----------

  /** A step that goes on has looked at no more than it consumed. */
  lemma StepOnFront(c: Config, p: Parser) returns (u: bytes)
    requires p.state != 0 && p.window != [] && Step(c, p).Continue? && !Step(c, p).next.valid
    ensures p.window == u + Step(c, p).next.window
    ensures p.state == 1 ==> u == []
    ensures p.state != 1 ==> u != [] && Step(c, p.(window := u)) == Continue(Emptied(Step(c, p).next))
  {
    hide Find, OccursAt, HeaderLines;
    if p.state == 1 {
      u := [];
    } else if p.state == 2 {
      u := HeadersOnFront(c, p);
    } else if p.state == 3 {
      var d := c.CrlfDashBoundary();
      var pos := Find(p.window, d);
      FindInFront(p.window, d);
      u := p.window[..pos + |d|];
      SplitAt(p.window, pos + |d|);
      assert u[..pos] == p.window[..pos] && u[pos + |d|..] == [];
    } else {
      u := BoundaryOnFront(c, p);
    }
  }

  lemma BoundaryOnFront(c: Config, p: Parser) returns (u: bytes)
    requires p.state == 4 && p.window != [] && BoundaryStep(c, p).Continue? && !BoundaryStep(c, p).next.valid
    ensures p.window == u + BoundaryStep(c, p).next.window && u != []
    ensures BoundaryStep(c, p.(window := u)) == Continue(Emptied(BoundaryStep(c, p).next))
  {
    u := CRLF;
    assert p.window[0..2] == CRLF;
    SplitAt(p.window, 2);
    assert CRLF + [] == CRLF;
    NextPart(c, p, []);
    NextPart(c, p, p.window[2..]);
  }

  lemma HeadersOnFront(c: Config, p: Parser) returns (u: bytes)
    requires p.state == 2 && HeadersStep(c, p).Continue?
    ensures p.window == u + HeadersStep(c, p).next.window && u != []
    ensures HeadersStep(c, p.(window := u)) == Continue(Emptied(HeadersStep(c, p).next))
  {
    u := HeaderLinesOnFront(c, p);
    hide Find, OccursAt, HeaderLines;
  }

  lemma {:induction false} HeaderLinesOnFront(c: Config, p: Parser) returns (u: bytes)
    requires p.state == 2 && HeaderLines(c, p).Continue?
    ensures p.window == u + HeaderLines(c, p).next.window && u != []
    ensures Find(u, CRLF) == Find(p.window, CRLF)
    ensures HeaderLines(c, p.(window := u)) == Continue(Emptied(HeaderLines(c, p).next))
    decreases |p.window|
  {
    hide Find, OccursAt;
    var w, pos := p.window, Find(p.window, CRLF);
    FindInFront(w, CRLF);
    var front := w[..pos + 2];
    SplitAt(w, pos + 2);
    if pos == 0 {
      u := front;
      assert u[2..] == [];
    } else {
      var next := BehindLine(p, pos);
      var more := HeaderLinesOnFront(c, next);
      u := front + more;
      ConcatAssoc(front, more, HeaderLines(c, next).next.window);
      FindInPrefix(front, more, CRLF);
      SlicePrefix(front, more, pos);
      SplitConcat(front, more);
      assert front[..pos] == w[..pos];
      assert HeaderLines(c, p.(window := u)) == HeaderLines(c, next.(window := more));
    }
  }

  /** What a parser has when a call ends: nothing, or bytes of which it can make nothing for the time being. */
  predicate Settled(c: Config, p: Parser)
  {
    p.window == [] || (Step(c, p).Return? && Step(c, p).last == p)
  }

  lemma {:induction false} HeaderLinesSettle(c: Config, p: Parser)
    requires p.state == 2 && HeaderLines(c, p).Return? && HeaderLines(c, p).ok
    ensures var q := HeaderLines(c, p).last;
            Find(q.window, CRLF) == |q.window| <= |p.window| && q.state == 2 && (q == p || |q.window| < |p.window|)
    decreases |p.window|
  {
    hide Find, OccursAt;
    var pos := Find(p.window, CRLF);
    FindInRange(p.window);
    if pos < |p.window| {
      FoundFits(p.window, CRLF);
      HeaderLinesSettle(c, BehindLine(p, pos));
    }
  }

  lemma StepSettles(c: Config, p: Parser)
    requires p.state != 0 && p.window != [] && Step(c, p).Return? && Step(c, p).ok
    ensures Settled(c, Step(c, p).last)
  {
    hide Find, OccursAt, BodyStep;
    if p.state == 2 { HeaderLinesSettle(c, p); }
    if p.state == 3 { BodySettles(c, p); }
  }

  lemma BodySettles(c: Config, p: Parser)
    requires p.state == 3 && BodyStep(c, p).Return?
    ensures BodyStep(c, p).last.state == 3 && BodyStep(c, BodyStep(c, p).last) == BodyStep(c, p)
  {
    hide Find, OccursAt, Config.CrlfDashBoundary;
    var d, w := c.CrlfDashBoundary(), p.window;
    if |d| <= |w| {
      FindInSuffix(w, |w| - |d|, d);
      assert w[|w| - |d|..][..0] == [] && w[|w| - |d|..][0..] == w[|w| - |d|..];
    }
  }

  /** Every call that is accepted leaves a settled parser. */
  lemma {:induction false} RunSettles(c: Config, p: Parser)
    requires p.state != 0 && Run(c, p).ok
    ensures Settled(c, Run(c, p).last)
    decreases |p.window|, if p.state == 1 then 1 else 0
  {
    hide Step;
    if p.window != [] {
      if Step(c, p).Continue? {
        StepLeavesOpening(c, p);
        RunSettles(c, Step(c, p).next);
      } else {
        StepSettles(c, p);
      }
    }
  }

  /** The parser could hold back `held`, which its window begins with. */
  predicate CouldHold(c: Config, p: Parser, held: bytes)
  {
    held <= p.window && (held == [] || Step(c, p.(window := held)) == Return(p.(window := held), true))
  }

  lemma HeadersHold(c: Config, p: Parser, held: bytes)
    requires p.state == 2 && CouldHold(c, p, held)
    ensures Unended(held)
  {
    UnendedNothing();
    if held != [] { HeaderLinesSettle(c, p.(window := held)); }
    hide Find, OccursAt;
  }

  lemma ClosingHold(c: Config, p: Parser, held: bytes)
    requires Closing(p) && CouldHold(c, p, held)
    ensures |held| < 2
  {
    assert held + p.window[|held|..] == p.window;
    if |held| >= 2 {
      OccursInPrefix(held, p.window[|held|..], CRLF, 0);
      OccursInPrefix(held, p.window[|held|..], DASH, 0);
      hide OccursAt;
      assert false;
    }
  }

  lemma FrontHold(c: Config, p: Parser, held: bytes, u: bytes)
    requires p.state > 1 && CouldHold(c, p, held) && u != [] && u <= p.window
    requires Step(c, p.(window := u)).Continue? && !Step(c, p.(window := u)).next.valid
    ensures |u| > |held|
  {
    hide Step;
    if |u| <= |held| {
      assert held == u + held[|u|..];
      StepMoreContinues(c, p.(window := u), held[|u|..]);
    }
  }

  /** An input that is not smooth, and a parser to meet it, have a cut that is refused or comes to
      something else than the whole. What can be held back of it need not be cut. */
  lemma {:induction false} RoughCut(c: Config, p: Parser, held: bytes) returns (pieces: seq<bytes>)
    requires p.state != 0 && !p.valid && !Smooth(c, p) && CouldHold(c, p, held)
    ensures pieces != [] && |pieces[0]| > |held| && Flatten(pieces) == p.window
    ensures !Agree(FeedAll(c, Emptied(p), pieces), Run(c, p))
    decreases |p.window|, if p.state == 1 then 1 else 0
  {
    hide Step, Feed, FeedAll, Flatten, Tokens, Harmless, ShortLines;
    if p.state == 2 && !ShortLines(c, p) {
      HeadersHold(c, p, held);
      pieces := HeadersCut(c, p, held);
    } else if Closing(p) && !Harmless(c, p.window[2..]) {
      pieces := ClosingCut(c, p);
      ClosingHold(c, p, held);
    } else {
      hide Closing;
      var n := Step(c, p).next;
      var more := RoughCut(c, n, []);
      var u := StepOnFront(c, p);
      hide Smooth, Agree;
      if p.state == 1 {
        pieces := more;
        assert u + n.window == n.window;
        OpeningHold(c, p, held);
        PartBegins(c, p, pieces);
      } else {
        hide Run;
        FrontHold(c, p, held, u);
        FrontTaken(c, p, u);
        FeedAllCons(c, Emptied(p), u, Emptied(n), more);
        pieces := [u] + more;
        RunStep(c, p);
      }
    }
  }

  lemma OpeningHold(c: Config, p: Parser, held: bytes)
    requires p.state == 1 && CouldHold(c, p, held)
    ensures held == []
  {
  }

  lemma RunStep(c: Config, p: Parser)
    requires p.window != [] && Step(c, p).Continue?
    ensures Run(c, p) == Run(c, Step(c, p).next)
  {
    hide Step;
  }

  lemma FrontTaken(c: Config, p: Parser, u: bytes)
    requires p.window != [] && Step(c, p).Continue? && u != []
    requires Step(c, p.(window := u)) == Continue(Emptied(Step(c, p).next))
    ensures Feed(c, Emptied(p), u) == Return(Emptied(Step(c, p).next), true)
  {
    hide Step;
    assert [] + u == u;
    RunStep(c, p.(window := u));
  }

  lemma PartBegins(c: Config, p: Parser, pieces: seq<bytes>)
    requires p.state == 1 && p.window != [] && pieces != [] && pieces[0] != []
    ensures Step(c, p).Continue? && Run(c, p) == Run(c, Step(c, p).next)
    ensures FeedAll(c, Emptied(p), pieces) == FeedAll(c, Emptied(Step(c, p).next), pieces)
  {
    hide HeadersStep;
    var a := pieces[0];
    assert [] + a == a;
    RunStep(c, p);
    RunStep(c, p.(window := a));
    hide Run;
  }

  lemma ClosingCut(c: Config, p: Parser) returns (pieces: seq<bytes>)
    requires Closing(p) && !Harmless(c, p.window[2..])
    ensures pieces != [] && |pieces[0]| >= 2 && Flatten(pieces) == p.window
    ensures !Agree(FeedAll(c, Emptied(p), pieces), Run(c, p))
  {
    var e := p.window[2..];
    assert p.window[0..2] == DASH;
    SplitAt(p.window, 2);
    hide Closing, Harmless, FeedAll, Flatten, Tokens, Run;
    pieces := EpilogueCut(c, Emptied(p), e);
    EndOfForm(c, Emptied(p), e);
    assert [] + p.window == p.window;
  }

  /** Bytes held back stand for the beginning of the first piece. */
  lemma HeldBack(c: Config, p: Parser, input: bytes, pieces: seq<bytes>) returns (rest: seq<bytes>)
    requires pieces != [] && |pieces[0]| >= |p.window| && Flatten(pieces) == p.window + input
    ensures rest != [] && Flatten(rest) == input
    ensures FeedAll(c, p, rest) == FeedAll(c, Emptied(p), pieces)
  {
    hide Run;
    var w, first := p.window, pieces[0];
    FlattenCons(pieces);
    assert (w + input)[..|w|] == w && (first + Flatten(pieces[1..]))[..|w|] == first[..|w|];
    SplitAt(first, |w|);
    rest := [first[|w|..]] + pieces[1..];
    assert rest[1..] == pieces[1..] && [] + first == first;
    ConcatAssoc(w, first[|w|..], Flatten(pieces[1..]));
    SplitConcat(w, input);
    SplitConcat(w, Flatten(rest));
    FlattenCons(rest);
  }

  /** Whatever comes behind the opening boundary, to a parser as any accepted call leaves it: all ways to cut it
      are accepted and come to what the whole does, if and only if it is smooth. */
  lemma PiecesAgreeExactly(c: Config, p: Parser, input: bytes)
    requires p.state != 0 && !p.valid && Settled(c, p)
    ensures Smooth(c, More(p, input))
       <==> forall chunks :: chunks != [] && Flatten(chunks) == input ==>
              Agree(FeedAll(c, p, chunks), Feed(c, p, input))
  {
    var q := More(p, input);
    if Smooth(c, q) {
      hide Smooth, Agree, FeedAll, Flatten, Run;
      forall chunks | chunks != [] && Flatten(chunks) == input
        ensures Agree(FeedAll(c, p, chunks), Feed(c, p, input))
      {
        PiecesAgree(c, p, chunks);
      }
    } else if p.window == [] || Step(c, p).ok {
      hide Smooth, Agree, FeedAll, Flatten, Run, Step;
      assert CouldHold(c, q, p.window) by { assert q.(window := p.window) == p; }
      var pieces := RoughCut(c, q, p.window);
      var chunks := HeldBack(c, p, input, pieces);
    } else {
      RefusedAnyway(c, p, input);
    }
  }

  lemma RefusedAnyway(c: Config, p: Parser, input: bytes)
    requires p.window != [] && Step(c, p) == Return(p, false)
    ensures exists chunks :: chunks != [] && Flatten(chunks) == input && !FeedAll(c, p, chunks).ok
  {
    hide Step;
    var chunks := [[], input];
    TwoPieces([], input);
    assert p.window + [] == p.window;
    assert !FeedAll(c, p, chunks).ok;
  }
}
