/** Serialized forms that arrive in pieces: which are accepted under every cut, and what a cut of the whole
    form delivers. */
module MultipartForms {
  import opened Bytes
  import opened Multipart
  import opened MultipartFragments

  // ---------- Short header lines are enough ----------

  /** Every header line of every item stays below the limit. */
  predicate LinesBelowLimit(items: seq<Item>)
  {
    forall item, line :: item in items && line in item.lines ==> |line| < HEADER_MAX_LENGTH
  }

  lemma {:induction false} ShortLinesOf(c: Config, p: Parser, lines: seq<bytes>, rest: bytes)
    requires p.state == 2 && p.window == JoinLines(lines) + (CRLF + rest)
    requires forall line :: line in lines ==>
               line != [] && 13 !in line && c.headerOk(line) && |line| < HEADER_MAX_LENGTH
    ensures ShortLines(c, p)
    decreases |lines|
  {
    hide Find, OccursAt;
    if lines == [] {
      FindLineEnd([], rest);
      assert [] + (CRLF + rest) == CRLF + rest;
      assert JoinLines(lines) + (CRLF + rest) == CRLF + rest;
    } else {
      var line, tail := lines[0], JoinLines(lines[1..]) + (CRLF + rest);
      assert line in lines;
      JoinLinesCons(lines);
      hide JoinLines;
      assert p.window == line + (CRLF + tail);
      FindLineEnd(line, tail);
      SlicePrefix(line, CRLF + tail, |line|);
      assert p.window[..|line|] == line && p.window[|line| + 2..] == tail;
      ShortLinesOf(c, p.(lines := p.lines + [line], window := tail), lines[1..], rest);
    }
  }

  lemma {:induction false} FormIsSmooth(c: Config, p: Parser, items: seq<Item>)
    requires items != [] && 13 !in c.boundary && forall item :: item in items ==> WellFormed(c, item)
    requires LinesBelowLimit(items) && p.state == 1 && !p.valid && p.window == SerializeFrom(c, items)
    ensures Smooth(c, p)
    decreases |items|
  {
    hide Find, JoinLines, OccursAt, WellFormed, HeadersStep, BodyStep, ShortLines, LinesBelowLimit;
    var item := items[0];
    var rest := if |items| == 1 then DASH + CRLF else CRLF + SerializeFrom(c, items[1..]);
    var body := item.content + (c.CrlfDashBoundary() + rest);
    var p2 := p.(lines := [], state := 2);
    ItemHeaders(c, p2, item, body);
    ItemBody(c, p2, item, rest);
    ItemShortLines(c, p2, items, body);
    var p3, p4 := InBody(p2, item, body), BehindItem(p2, item, rest);
    assert body != [] by { assert |body| >= |c.CrlfDashBoundary()|; }
    if |items| == 1 {
      ClosingEnd(p4);
      assert Smooth(c, p4) by { EndIsSmooth(c, p4); }
    } else {
      var next := p4.(window := SerializeFrom(c, items[1..]), state := 1);
      NextPart(c, p4, next.window);
      assert LinesBelowLimit(items[1..]) by { FewerLines(items); }
      FormIsSmooth(c, next, items[1..]);
      assert Smooth(c, p4) by { ContinueIsSmooth(c, p4, next); }
    }
    hide SerializeFrom;
    assert Step(c, p3) == Continue(p4) && Smooth(c, p3);
    assert Step(c, p2) == Continue(p3) && Smooth(c, p2);
    assert Step(c, p) == Continue(p2);
  }

  lemma FewerLines(items: seq<Item>)
    requires items != [] && LinesBelowLimit(items)
    ensures LinesBelowLimit(items[1..])
  {
  }

  lemma ItemShortLines(c: Config, p: Parser, items: seq<Item>, body: bytes)
    requires items != [] && WellFormed(c, items[0]) && LinesBelowLimit(items)
    requires p.state == 2 && p.window == JoinLines(items[0].lines) + (CRLF + body)
    ensures ShortLines(c, p)
  {
    hide Find, JoinLines, OccursAt, ShortLines;
    assert items[0] in items;
    ShortLinesOf(c, p, items[0].lines, body);
  }

  lemma ClosingEnd(p: Parser)
    requires p.state == 4 && p.window == DASH + CRLF
    ensures Closing(p)
  {
    assert p.window[0..2] == DASH && CRLF[0] != DASH[0];
  }

  lemma EndIsSmooth(c: Config, p: Parser)
    requires p.state == 4 && p.window == DASH + CRLF
    ensures Smooth(c, p)
  {
    hide Find;
    ClosingEnd(p);
    assert p.window[2..] == CRLF;
  }

  lemma ContinueIsSmooth(c: Config, p: Parser, next: Parser)
    requires p.state == 4 && p.window != [] && BoundaryStep(c, p) == Continue(next) && !next.valid
    requires next.state == 1 && Smooth(c, next) && StartsWith(p.window, CRLF)
    ensures Smooth(c, p)
  {
    hide Find, OccursAt;
  }

  /** Closed, and no part begun behind that. */
  predicate Finished(p: Parser)
  {
    p.valid && (p.state == 4 || p.state == 1)
  }

  /** Behind its opening boundary, a form with lines below the limit is accepted under every cut, and delivers
      its items and finishes. */
  lemma FormInPieces(c: Config, items: seq<Item>, chunks: seq<bytes>)
    requires items != [] && 13 !in c.boundary && forall item :: item in items ==> WellFormed(c, item)
    requires LinesBelowLimit(items) && Flatten(chunks) == SerializeFrom(c, items)
    ensures var r := FeedAll(c, START.(state := 1), chunks);
            r.ok && Finished(r.last) && Tokens(r.last.events) == Tokens(EventsOf(items))
  {
    var p, text := START.(state := 1), SerializeFrom(c, items);
    assert chunks != [] by { NotNothing(c, items); FlattenNothing(); }
    hide Run, Tokens, Flatten, SerializeFrom, WellFormed, FeedAll, Smooth, LinesBelowLimit;
    assert [] + text == text && [] + EventsOf(items) == EventsOf(items);
    FormIsSmooth(c, p.(window := text), items);
    PiecesAgree(c, p, chunks);
    RunItems(c, p.(window := text), items);
    NoPartBegun(c, items, chunks);
  }

  lemma NotNothing(c: Config, items: seq<Item>)
    requires items != []
    ensures SerializeFrom(c, items) != []
  {
    hide JoinLines;
    assert |SerializeFrom(c, items)| >= |CRLF|;
  }

  // ---------- ... and needed ----------

  /** The form up to the line `j` of item `i`, and what follows that line. */
  function Before(c: Config, items: seq<Item>, i: nat, j: nat): (r: bytes)
    requires i < |items| && j < |items[i].lines|
  {
    if i == 0 then JoinLines(items[0].lines[..j])
    else
      JoinLines(items[0].lines)
      + (CRLF + (items[0].content + (c.CrlfDashBoundary() + (CRLF + Before(c, items[1..], i - 1, j)))))
  }

  lemma {:induction false} JoinLinesAt(lines: seq<bytes>, j: nat)
    requires j < |lines|
    ensures JoinLines(lines) == JoinLines(lines[..j]) + (lines[j] + (CRLF + JoinLines(lines[j + 1..])))
  {
    JoinLinesCons(lines);
    if j == 0 {
      assert lines[..0] == [];
      ConcatAssoc(lines[0], CRLF, JoinLines(lines[1..]));
    } else {
      JoinLinesAt(lines[1..], j - 1);
      JoinLinesCons(lines[..j]);
      assert lines[..j][1..] == lines[1..][..j - 1] && lines[1..][j..] == lines[j + 1..];
      hide JoinLines;
      ConcatAssoc(lines[0] + CRLF, JoinLines(lines[1..][..j - 1]), lines[j] + (CRLF + JoinLines(lines[j + 1..])));
    }
  }

  lemma {:induction false} SplitAtLine(c: Config, items: seq<Item>, i: nat, j: nat) returns (rest: bytes)
    requires i < |items| && j < |items[i].lines|
    ensures SerializeFrom(c, items) == Before(c, items, i, j) + (items[i].lines[j] + (CRLF + rest))
    decreases i
  {
    var item := items[0];
    var tail := if |items| == 1 then DASH + CRLF else CRLF + SerializeFrom(c, items[1..]);
    if i == 0 {
      var body := item.content + (c.CrlfDashBoundary() + tail);
      rest := JoinLines(item.lines[j + 1..]) + (CRLF + body);
      JoinLinesAt(item.lines, j);
      hide JoinLines;
      Shift(JoinLines(item.lines[..j]), item.lines[j], JoinLines(item.lines[j + 1..]), CRLF + body);
    } else {
      rest := SplitAtLine(c, items[1..], i - 1, j);
      hide JoinLines;
      var b, t := Before(c, items[1..], i - 1, j), items[i].lines[j] + (CRLF + rest);
      ConcatAssoc(CRLF, b, t);
      ConcatAssoc(c.CrlfDashBoundary(), CRLF + b, t);
      ConcatAssoc(item.content, c.CrlfDashBoundary() + (CRLF + b), t);
      ConcatAssoc(CRLF, item.content + (c.CrlfDashBoundary() + (CRLF + b)), t);
      ConcatAssoc(JoinLines(item.lines), CRLF + (item.content + (c.CrlfDashBoundary() + (CRLF + b))), t);
    }
  }

  lemma Shift(a: bytes, line: bytes, b: bytes, t: bytes)
    ensures (a + (line + (CRLF + b))) + t == a + (line + (CRLF + (b + t)))
  {
    ConcatAssoc(a, line + (CRLF + b), t);
    ConcatAssoc(line, CRLF + b, t);
    ConcatAssoc(CRLF, b, t);
  }

  /** The parser that has taken everything before that line waits at its start. */
  lemma {:induction false} RunBefore(c: Config, p: Parser, items: seq<Item>, i: nat, j: nat)
    requires 13 !in c.boundary && forall item :: item in items ==> WellFormed(c, item)
    requires i < |items| && j < |items[i].lines| && p.state == 1 && p.window == Before(c, items, i, j)
    ensures Run(c, p).ok && Run(c, p).last.window == []
    ensures Run(c, p).last.state == 1 || Run(c, p).last.state == 2
    decreases i
  {
    hide Find, OccursAt, WellFormed;
    var item := items[0];
    if i == 0 {
      RunLines(c, p, item, j);
    } else {
      var more := Before(c, items[1..], i - 1, j);
      hide JoinLines;
      RunItem(c, p, item, CRLF + more);
      var q := BehindItem(p, item, CRLF + more);
      var next := q.(window := more, state := 1);
      NextPart(c, q, more);
      assert Run(c, q) == Run(c, next);
      RunBefore(c, next, items[1..], i - 1, j);
    }
  }

  lemma RunLines(c: Config, p: Parser, item: Item, j: nat)
    requires WellFormed(c, item) && j < |item.lines| && p.state == 1 && p.window == JoinLines(item.lines[..j])
    ensures Run(c, p).ok && Run(c, p).last.window == []
    ensures Run(c, p).last.state == 1 || Run(c, p).last.state == 2
  {
    hide Find, OccursAt, HeaderLines;
    if j > 0 {
      var p2 := p.(lines := [], state := 2);
      JoinLinesCons(item.lines[..j]);
      var line, tail := item.lines[0], JoinLines(item.lines[..j][1..]);
      assert line in item.lines;
      assert p.window == line + (CRLF + tail);
      FindLineEnd(line, tail);
      forall l | l in item.lines[..j] ensures l in item.lines { }
      OpenLines(c, p2, item.lines[..j]);
      assert Run(c, p) == Run(c, p2);
    }
  }

  lemma {:induction false} OpenLines(c: Config, p: Parser, lines: seq<bytes>)
    requires p.state == 2 && p.window == JoinLines(lines)
    requires forall line :: line in lines ==> line != [] && 13 !in line && c.headerOk(line)
    ensures HeaderLines(c, p) == Return(p.(lines := p.lines + lines, window := []), true)
    decreases |lines|
  {
    hide Find, OccursAt;
    if lines == [] {
      NothingFound();
      assert p.lines + lines == p.lines;
    } else {
      var line, tail := lines[0], JoinLines(lines[1..]);
      assert line in lines;
      JoinLinesCons(lines);
      ConcatAssoc(line, CRLF, tail);
      HeaderLineStep(c, p, line, tail);
      forall l | l in lines[1..] ensures l in lines { }
      OpenLines(c, p.(lines := p.lines + [line], window := tail), lines[1..]);
      assert p.lines + lines == (p.lines + [line]) + lines[1..];
    }
  }

  lemma NoWholeLineEnd(line: bytes)
    requires 13 !in line
    ensures Find(line + [13], CRLF) == |line| + 1
  {
    hide Find;
    var w := line + [13];
    forall j: nat | j < |w| ensures !OccursAt(w, CRLF, j) {
      if j + 2 <= |w| { assert w[j..j + 2][0] == line[j]; }
    }
    FindUnique(w, CRLF, |w|);
  }

  /** Cutting before such a line and inside its line end has the form refused. */
  lemma LongLineRefused(c: Config, items: seq<Item>, i: nat, j: nat) returns (chunks: seq<bytes>)
    requires 13 !in c.boundary && forall item :: item in items ==> WellFormed(c, item)
    requires i < |items| && j < |items[i].lines| && |items[i].lines[j]| >= HEADER_MAX_LENGTH
    ensures Flatten(chunks) == SerializeFrom(c, items)
    ensures !FeedAll(c, START.(state := 1), chunks).ok
  {
    var line, before := items[i].lines[j], Before(c, items, i, j);
    var rest := SplitAtLine(c, items, i, j);
    var p := START.(state := 1);
    assert [] + before == before;
    RunBefore(c, p.(window := before), items, i, j);
    var q := Feed(c, p, before).last;
    assert 13 !in line by { LineHasNoReturn(c, items, i, j); }
    NoWholeLineEnd(line);
    LongPieceRefused(c, q, line + [13]);
    hide Run, Before, SerializeFrom;
    var last := [10] + rest;
    chunks := [before, line + [13], last];
    FlattenThree(before, line + [13], last);
    assert (line + [13]) + last == line + (CRLF + rest);
    assert chunks[1..] == [line + [13], last];
    assert FeedAll(c, q, chunks[1..]) == Feed(c, q, line + [13]);
  }

  lemma LineHasNoReturn(c: Config, items: seq<Item>, i: nat, j: nat)
    requires forall item :: item in items ==> WellFormed(c, item)
    requires i < |items| && j < |items[i].lines|
    ensures 13 !in items[i].lines[j]
  {
    hide Find;
    assert items[i] in items;
    assert items[i].lines[j] in items[i].lines;
  }

  lemma FlattenThree(a: bytes, b: bytes, d: bytes)
    ensures Flatten([a, b, d]) == a + (b + d)
  {
    var last: seq<bytes> := [d];
    var two: seq<bytes> := [b, d];
    assert last[1..] == [] && two[1..] == last && [a, b, d][1..] == two;
    assert Flatten(last) == d;
  }

  /** Behind its opening boundary a form is accepted under every cut if and only if every header line of every
      item is shorter than the limit. */
  lemma FormUnderEveryCut(c: Config, items: seq<Item>)
    requires items != [] && 13 !in c.boundary && forall item :: item in items ==> WellFormed(c, item)
    ensures (forall item, line :: item in items && line in item.lines ==> |line| < 8192)
       <==> forall chunks :: Flatten(chunks) == SerializeFrom(c, items) ==>
              FeedAll(c, START.(state := 1), chunks).ok
  {
    hide WellFormed, FeedAll, Flatten, SerializeFrom, Tokens;
    if LinesBelowLimit(items) {
      hide LinesBelowLimit;
      forall chunks | Flatten(chunks) == SerializeFrom(c, items) ensures FeedAll(c, START.(state := 1), chunks).ok {
        FormInPieces(c, items, chunks);
      }
    } else {
      var item, line :| item in items && line in item.lines && |line| >= 8192;
      var i: nat :| i < |items| && items[i] == item;
      var j: nat :| j < |item.lines| && item.lines[j] == line;
      var chunks := LongLineRefused(c, items, i, j);
    }
  }

  // ---------- The whole form, opening boundary included ----------

  /** The first piece that is not empty. */
  function FirstPiece(chunks: seq<bytes>): (r: bytes)
  {
    if chunks == [] then [] else if chunks[0] != [] then chunks[0] else FirstPiece(chunks[1..])
  }

  ghost predicate Delivered(c: Config, items: seq<Item>, chunks: seq<bytes>)
  {
    var r := FeedAll(c, START, chunks);
    r.ok && Finished(r.last) && Tokens(r.last.events) == Tokens(EventsOf(items))
  }

  lemma {:induction false} FirstPieceStarts(chunks: seq<bytes>)
    ensures FirstPiece(chunks) <= Flatten(chunks)
    ensures Flatten(chunks) != [] ==> FirstPiece(chunks) != []
  {
    if chunks != [] && chunks[0] == [] {
      FirstPieceStarts(chunks[1..]);
      assert Flatten(chunks) == Flatten(chunks[1..]);
    }
  }

  lemma OpeningAtStart(c: Config, piece: bytes)
    requires c.DashBoundaryCrlf() <= piece
    ensures HasOpening(c, piece) && BehindOpening(c, piece) == piece[|c.DashBoundaryCrlf()|..]
  {
    var d0 := c.DashBoundaryCrlf();
    assert OccursAt(piece, d0, 0) by { assert piece[0..|d0|] == d0; }
    FindAtMost(piece, d0, 0);
  }

  /** Pieces whose first one holds the opening boundary are read like pieces of what follows it. */
  lemma {:induction false} FeedBehindOpening(c: Config, chunks: seq<bytes>) returns (behind: seq<bytes>)
    requires c.DashBoundaryCrlf() <= FirstPiece(chunks)
    ensures FeedAll(c, START, chunks) == FeedAll(c, START.(state := 1), behind)
    ensures Flatten(chunks) == c.DashBoundaryCrlf() + Flatten(behind)
    decreases |chunks|
  {
    hide Run, Find, OccursAt;
    var d0 := c.DashBoundaryCrlf();
    FlattenCons(chunks);
    FeedOpening(c, START, chunks[0]);
    if chunks[0] == [] {
      NoOpening(c);
      behind := FeedBehindOpening(c, chunks[1..]);
      assert Flatten(chunks) == Flatten(chunks[1..]);
    } else {
      OpeningAtStart(c, chunks[0]);
      var rest := chunks[0][|d0|..];
      hide HasOpening, BehindOpening;
      behind := [rest] + chunks[1..];
      assert behind[1..] == chunks[1..] && [] + rest == rest;
      FlattenCons(behind);
      assert chunks[0] == d0 + rest;
      ConcatAssoc(d0, rest, Flatten(chunks[1..]));
    }
  }

  // ---------- What is lost with the opening boundary is lost ----------

  function LinesWeight(lines: seq<bytes>): (n: nat)
  {
    if lines == [] then 0 else |lines[0]| + 2 + LinesWeight(lines[1..])
  }

  /** Bytes of the input that a token stands for, with the line end and the delimiter before a part. */
  function TokenWeight(c: Config, t: Token): (n: nat)
  {
    match t
    case HeaderToken(lines) => LinesWeight(lines) + 2 + (|c.CrlfDashBoundary()| + 2)
    case ContentByte(_) => 1
  }

  function Weight(c: Config, tokens: seq<Token>): (n: nat)
  {
    if tokens == [] then 0 else TokenWeight(c, tokens[0]) + Weight(c, tokens[1..])
  }

  lemma {:induction false} WeightConcat(c: Config, a: seq<Token>, b: seq<Token>)
    ensures Weight(c, a + b) == Weight(c, a) + Weight(c, b)
  {
    hide TokenWeight;
    if a == [] {
      assert a + b == b;
    } else {
      assert (a + b)[1..] == a[1..] + b;
      WeightConcat(c, a[1..], b);
    }
  }

  lemma {:induction false} WeightContent(c: Config, content: bytes)
    ensures Weight(c, ContentTokens(content)) == |content|
  {
    if content != [] {
      assert ContentTokens(content)[1..] == ContentTokens(content[1..]);
      WeightContent(c, content[1..]);
    }
  }

  lemma {:induction false} LinesWeightSnoc(lines: seq<bytes>, line: bytes)
    ensures LinesWeight(lines + [line]) == LinesWeight(lines) + |line| + 2
  {
    if lines == [] {
      assert lines + [line] == [line];
      assert [line][1..] == [];
    } else {
      assert (lines + [line])[1..] == lines[1..] + [line];
      LinesWeightSnoc(lines[1..], line);
    }
  }

  function EventsWeight(c: Config, events: seq<Event>): (n: nat)
  {
    Weight(c, Tokens(events))
  }

  lemma EventsWeightHeader(c: Config, events: seq<Event>, lines: seq<bytes>)
    ensures EventsWeight(c, events + [Header(lines)])
         == EventsWeight(c, events) + LinesWeight(lines) + |c.CrlfDashBoundary()| + 4
  {
    hide LinesWeight;
    TokensConcat(events, [Header(lines)]);
    assert [Header(lines)][1..] == [];
    var t := [HeaderToken(lines)];
    assert t[1..] == [] && Tokens([Header(lines)]) == t + [] == t;
    WeightConcat(c, Tokens(events), t);
    assert Weight(c, t) == TokenWeight(c, t[0]) + Weight(c, []);
  }

  lemma EventsWeightData(c: Config, events: seq<Event>, content: bytes)
    ensures EventsWeight(c, events + [Data(content)]) == EventsWeight(c, events) + |content|
    ensures EventsWeight(c, Emit(events, content)) == EventsWeight(c, events) + |content|
  {
    TokensData(events, content);
    WeightConcat(c, Tokens(events), ContentTokens(content));
    WeightContent(c, content);
  }

  /** What a parser has taken in, reckoned by what it has delivered and holds. */
  function Taken(c: Config, p: Parser): (n: nat)
  {
    EventsWeight(c, p.events) + |p.window|
    + (match p.state
       case 0 => 0
       case 1 => |c.CrlfDashBoundary()| + 2
       case 2 => LinesWeight(p.lines) + |c.CrlfDashBoundary()| + 2
       case 3 => 0
       case 4 => |c.CrlfDashBoundary()|)
    + (if p.valid then 2 else 0)
  }

  function Result(r: StepResult): (p: Parser)
  {
    if r.Continue? then r.next else r.last
  }

  lemma {:induction false} HeaderLinesTaken(c: Config, p: Parser)
    requires p.state == 2
    ensures Taken(c, Result(HeaderLines(c, p))) <= Taken(c, p)
    decreases |p.window|
  {
    hide Find, OccursAt, EventsWeight, LinesWeight;
    var w, pos := p.window, Find(p.window, CRLF);
    if pos < |w| {
      FoundFits(w, CRLF);
      if pos == 0 {
        EventsWeightHeader(c, p.events, p.lines);
      } else if c.headerOk(w[..pos]) {
        LinesWeightSnoc(p.lines, w[..pos]);
        HeaderLinesTaken(c, p.(lines := p.lines + [w[..pos]], window := w[pos + 2..]));
      }
    }
  }

  lemma BodyTaken(c: Config, p: Parser)
    requires p.state == 3
    ensures Taken(c, Result(BodyStep(c, p))) <= Taken(c, p)
  {
    hide Find, OccursAt, EventsWeight;
    var w, d := p.window, c.CrlfDashBoundary();
    if |d| <= |w| {
      if Find(w, d) < |w| {
        FoundFits(w, d);
        EventsWeightData(c, p.events, w[..Find(w, d)]);
      } else {
        EventsWeightData(c, p.events, w[..|w| - |d|]);
      }
    }
  }

  lemma StepTaken(c: Config, p: Parser)
    requires p.state != 0 && p.window != []
    ensures Taken(c, Result(Step(c, p))) <= Taken(c, p)
  {
    hide Find, OccursAt, EventsWeight, HeaderLines, BodyStep;
    if p.state == 2 { HeaderLinesTaken(c, p); }
    if p.state == 3 { BodyTaken(c, p); }
    assert LinesWeight([]) == 0;
  }

  lemma {:induction false} RunTaken(c: Config, p: Parser)
    requires p.state != 0
    ensures Taken(c, Run(c, p).last) <= Taken(c, p)
    decreases |p.window|, if p.state == 1 then 1 else 0
  {
    hide Step, Taken;
    if p.window != [] {
      StepTaken(c, p);
      if Step(c, p).Continue? {
        StepLeavesOpening(c, p);
        RunTaken(c, Step(c, p).next);
      }
    }
  }

  /** Nothing is delivered that was not fed. */
  lemma {:induction false} FeedAllTaken(c: Config, p: Parser, chunks: seq<bytes>)
    requires p.state != 0
    ensures Taken(c, FeedAll(c, p, chunks).last) <= Taken(c, p) + |Flatten(chunks)|
    decreases |chunks|
  {
    hide Run, EventsWeight, LinesWeight;
    if chunks != [] {
      FlattenCons(chunks);
      var q := More(p, chunks[0]);
      assert Taken(c, q) == Taken(c, p) + |chunks[0]|;
      hide Taken;
      RunTaken(c, q);
      if Run(c, q).ok {
        RunEnds(c, q);
        FeedAllTaken(c, Run(c, q).last, chunks[1..]);
      }
    }
  }

  lemma {:induction false} JoinLinesWeight(lines: seq<bytes>)
    ensures |JoinLines(lines)| == LinesWeight(lines)
  {
    if lines != [] { JoinLinesWeight(lines[1..]); }
  }

  lemma {:induction false} FormWeight(c: Config, items: seq<Item>)
    requires items != []
    ensures |SerializeFrom(c, items)| == EventsWeight(c, EventsOf(items)) + 2
  {
    hide JoinLines, LinesWeight, EventsWeight;
    var item, tail := items[0], EventsOf(items[1..]);
    JoinLinesWeight(item.lines);
    ItemWeight(c, item, tail);
    if |items| > 1 { FormWeight(c, items[1..]); } else { EmptyWeight(c); }
  }

  lemma EmptyWeight(c: Config)
    ensures EventsWeight(c, []) == 0
  {
  }

  lemma ItemWeight(c: Config, item: Item, tail: seq<Event>)
    ensures EventsWeight(c, [Header(item.lines), Data(item.content)] + tail)
         == LinesWeight(item.lines) + |c.CrlfDashBoundary()| + 4 + |item.content| + EventsWeight(c, tail)
  {
    hide LinesWeight, Tokens, Weight;
    var h, here := [Header(item.lines)], [Header(item.lines), Data(item.content)];
    assert [] + h == h && h + [Data(item.content)] == here;
    EventsWeightHeader(c, [], item.lines);
    EmptyWeight(c);
    EventsWeightData(c, h, item.content);
    TokensConcat(here, tail);
    WeightConcat(c, Tokens(here), Tokens(tail));
  }

  /** A parser in a header block has begun it. */
  predicate NotIdle(p: Parser)
  {
    p.state == 2 ==> p.window != [] || p.lines != []
  }

  lemma {:induction false} HeaderLinesNotIdle(c: Config, p: Parser)
    requires p.state == 2 && NotIdle(p)
    ensures NotIdle(Result(HeaderLines(c, p)))
    decreases |p.window|
  {
    hide Find, OccursAt;
    var pos := Find(p.window, CRLF);
    if 0 < pos < |p.window| && c.headerOk(p.window[..pos]) {
      FoundFits(p.window, CRLF);
      HeaderLinesNotIdle(c, p.(lines := p.lines + [p.window[..pos]], window := p.window[pos + 2..]));
    }
  }

  lemma {:induction false} RunNotIdle(c: Config, p: Parser)
    requires p.state != 0 && NotIdle(p)
    ensures NotIdle(Run(c, p).last)
    decreases |p.window|, if p.state == 1 then 1 else 0
  {
    hide Find, OccursAt, HeaderLines;
    if p.window != [] {
      if p.state == 2 {
        HeaderLinesNotIdle(c, p);
        HeaderLinesEnds(c, p);
      }
      if Step(c, p).Continue? { RunNotIdle(c, Step(c, p).next); }
    }
  }

  lemma {:induction false} FeedAllNotIdle(c: Config, p: Parser, chunks: seq<bytes>)
    requires p.state != 0 && NotIdle(p)
    ensures NotIdle(FeedAll(c, p, chunks).last)
    decreases |chunks|
  {
    hide Run;
    if chunks != [] {
      RunNotIdle(c, More(p, chunks[0]));
      if Feed(c, p, chunks[0]).ok {
        RunEnds(c, More(p, chunks[0]));
        FeedAllNotIdle(c, Feed(c, p, chunks[0]).last, chunks[1..]);
      }
    }
  }

  /** Nothing is left of a form for another part, once its items are delivered. */
  lemma NoPartBegun(c: Config, items: seq<Item>, chunks: seq<bytes>)
    requires items != [] && Flatten(chunks) == SerializeFrom(c, items)
    requires var r := FeedAll(c, START.(state := 1), chunks);
             Ended(r.last) && Tokens(r.last.events) == Tokens(EventsOf(items))
    ensures Finished(FeedAll(c, START.(state := 1), chunks).last)
  {
    hide Flatten, SerializeFrom, FeedAll, Tokens;
    var p := START.(state := 1);
    FeedAllTaken(c, p, chunks);
    FeedAllNotIdle(c, p, chunks);
    FormWeight(c, items);
    EmptyWeight(c);
  }

  /** An opening boundary cannot overlap another. */
  lemma NoOverlap(c: Config, text: bytes, k: nat)
    requires 13 !in c.boundary && c.DashBoundaryCrlf() <= text && OccursAt(text, c.DashBoundaryCrlf(), k) && k > 0
    ensures k >= |c.DashBoundaryCrlf()|
  {
    var d0 := c.DashBoundaryCrlf();
    var n := |d0|;
    OccursFits(text, d0, k);
    OccursPointwise(text, d0, k);
    assert d0 == (DASH + c.boundary) + CRLF;
    assert forall m :: 0 <= m < n - 2 ==> d0[m] == (DASH + c.boundary)[m];
    assert text[n - 2] == 13 && text[n - 1] == 10 && d0[0] == 45;
    var m := if k <= n - 2 then n - 2 - k else 0;
    assert text[k + m] == d0[m];
  }

  lemma {:induction false} FirstPieceEarlier(c: Config, chunks: seq<bytes>, i: nat)
    requires i < |chunks| && chunks[i] != [] && |FirstPiece(chunks)| < |chunks[i]|
    ensures |Flatten(chunks[..i])| > 0
  {
    if i == 0 {
    } else if chunks[0] == [] {
      FirstPieceEarlier(c, chunks[1..], i - 1);
      assert chunks[..i][1..] == chunks[1..][..i - 1];
    } else {
      assert chunks[..i][0] == chunks[0];
      FlattenCons(chunks[..i]);
    }
  }

  lemma {:induction false} FlattenAt(chunks: seq<bytes>, i: nat)
    requires i < |chunks|
    ensures Flatten(chunks) == Flatten(chunks[..i]) + (chunks[i] + Flatten(chunks[i + 1..]))
  {
    FlattenCons(chunks);
    if i == 0 {
      assert chunks[..0] == [];
    } else {
      FlattenAt(chunks[1..], i - 1);
      assert chunks[..i][1..] == chunks[1..][..i - 1] && chunks[1..][i..] == chunks[i + 1..];
      FlattenCons(chunks[..i]);
      hide Flatten;
      ConcatAssoc(chunks[0], Flatten(chunks[1..][..i - 1]), chunks[i] + Flatten(chunks[i + 1..]));
    }
  }

  /** A boundary found after the first one has been missed leaves too little for the whole form. */
  lemma LateOpeningLeavesLess(c: Config, text: bytes, chunks: seq<bytes>, i: nat)
    requires 13 !in c.boundary && c.DashBoundaryCrlf() <= text && Flatten(chunks) == text
    requires |FirstPiece(chunks)| < |c.DashBoundaryCrlf()|
    requires i < |chunks| && HasOpening(c, chunks[i])
    ensures |BehindOpening(c, chunks[i])| + |Flatten(chunks[i + 1..])| <= |text| - 2 * |c.DashBoundaryCrlf()|
  {
    var d0 := c.DashBoundaryCrlf();
    var pos, front := Find(chunks[i], d0), Flatten(chunks[..i]);
    FoundFits(chunks[i], d0);
    FoundThere(chunks[i], d0);
    FlattenAt(chunks, i);
    FirstPieceEarlier(c, chunks, i);
    OccursInside(front, chunks[i], Flatten(chunks[i + 1..]), d0, pos);
    NoOverlap(c, text, |front| + pos);
  }

  lemma OccursInside(a: bytes, b: bytes, t: bytes, d: bytes, k: nat)
    requires OccursAt(b, d, k)
    ensures OccursAt(a + (b + t), d, |a| + k)
  {
    hide OccursAt;
    OccursFits(b, d, k);
    OccursInPrefix(b, t, d, k);
    SliceSuffix(a, b + t, 0);
    OccursInSuffix(a + (b + t), |a|, d, k);
  }

  /** Of a form with lines below the limit, however it is cut, all is delivered if and only if the first piece
      holds the whole opening boundary. */
  lemma WholeFormExactly(c: Config, items: seq<Item>, chunks: seq<bytes>)
    requires items != [] && 13 !in c.boundary && forall item :: item in items ==> WellFormed(c, item)
    requires LinesBelowLimit(items) && Flatten(chunks) == Serialize(c, items)
    ensures Delivered(c, items, chunks) <==> |FirstPiece(chunks)| >= |c.DashBoundaryCrlf()|
  {
    var d0, text := c.DashBoundaryCrlf(), Serialize(c, items);
    assert d0 <= text && text == d0 + SerializeFrom(c, items);
    FirstPieceStarts(chunks);
    hide WellFormed, LinesBelowLimit, Flatten, SerializeFrom, Serialize, FeedAll, Run, Tokens, Find, OccursAt;
    if |FirstPiece(chunks)| >= |d0| {
      assert d0 <= FirstPiece(chunks);
      var behind := FeedBehindOpening(c, chunks);
      SplitConcat(d0, Flatten(behind));
      SplitConcat(d0, SerializeFrom(c, items));
      FormInPieces(c, items, behind);
    } else if Delivered(c, items, chunks) {
      OpeningNeedsOneChunk(c, START, chunks);
      TooLittle(c, items, chunks, FirstOpening(c, chunks));
    }
  }

  lemma TooLittle(c: Config, items: seq<Item>, chunks: seq<bytes>, i: nat)
    requires items != [] && 13 !in c.boundary && Flatten(chunks) == c.DashBoundaryCrlf() + SerializeFrom(c, items)
    requires |FirstPiece(chunks)| < |c.DashBoundaryCrlf()| && i < |chunks| && HasOpening(c, chunks[i])
    ensures var r := GoOn(c, Run(c, START.(state := 1, window := BehindOpening(c, chunks[i]))), chunks[i + 1..]);
            !(r.ok && Finished(r.last) && Tokens(r.last.events) == Tokens(EventsOf(items)))
  {
    hide Flatten, SerializeFrom, FeedAll, Run, Tokens, Find, OccursAt, HasOpening;
    var behind := BehindOpening(c, chunks[i]);
    var p := START.(state := 1);
    var r := GoOn(c, Run(c, p.(window := behind)), chunks[i + 1..]);
    LateOpeningLeavesLess(c, Flatten(chunks), chunks, i);
    hide BehindOpening;
    FormWeight(c, items);
    EmptyWeight(c);
    RunTaken(c, p.(window := behind));
    if r.ok {
      RunThenFeed(c, p.(window := behind), chunks[i + 1..]);
    }
  }

  lemma RunThenFeed(c: Config, p: Parser, chunks: seq<bytes>)
    requires p.state != 0 && GoOn(c, Run(c, p), chunks).ok
    ensures Taken(c, GoOn(c, Run(c, p), chunks).last) <= Taken(c, p) + |Flatten(chunks)|
  {
    hide FeedAll, Run, Taken, Flatten;
    RunTaken(c, p);
    RunEnds(c, p);
    FeedAllTaken(c, Run(c, p).last, chunks);
  }
}
