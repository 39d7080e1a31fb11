/** One turn of the agent: choosing the knowledge for the prompt, the bounded tool loop, and the sliding
    memory of the session. Scores are exact reals; a `string` stands for its bytes. */
module AgentWorkflows {
  import opened Bytes
  import opened Text

  // ---------- Choosing the knowledge ----------

  datatype Hit = Hit(content: string, score: real)

  const MAX_CONTEXT_LENGTH := 1000

  predicate Descending(h: seq<Hit>)
  {
    forall i, j :: 0 <= i < j < |h| ==> h[i].score >= h[j].score
  }

  predicate SameHits(h: seq<Hit>, hits: seq<Hit>)
  {
    multiset(h) == multiset(hits)
  }

  function Inserted(h: seq<Hit>, k: nat, x: Hit): (r: seq<Hit>)
    requires k <= |h|
  {
    h[..k] + [x] + h[k..]
  }

  lemma InsertedSorted(h: seq<Hit>, k: nat, x: Hit)
    requires Descending(h) && k <= |h|
    requires k > 0 ==> h[k - 1].score >= x.score
    requires forall i :: k <= i < |h| ==> h[i].score < x.score
    ensures Descending(Inserted(h, k, x))
  {
    assert forall i :: 0 <= i < k ==> h[i].score >= x.score;
  }

  lemma InsertedSameHits(h: seq<Hit>, k: nat, hits: seq<Hit>, n: nat)
    requires k <= |h| && n < |hits| && SameHits(h, hits[..n])
    ensures SameHits(Inserted(h, k, hits[n]), hits[..n + 1])
  {
    assert h == h[..k] + h[k..];
    assert hits[..n + 1] == hits[..n] + [hits[n]];
  }

  /** `std::sort`: some descending order of the same hits. */
  method Sort(hits: seq<Hit>) returns (h: seq<Hit>)
    ensures Descending(h) && SameHits(h, hits)
  {
    h := [];
    assert hits[..0] == [] && hits[..|hits|] == hits;
    assert Descending(h) && SameHits(h, hits[..0]);
    hide Descending, SameHits, Inserted;
    for n := 0 to |hits|
      invariant Descending(h) && SameHits(h, hits[..n])
    {
      var k := |h|;
      while k > 0 && h[k - 1].score < hits[n].score
        invariant 0 <= k <= |h|
        invariant forall i :: k <= i < |h| ==> h[i].score < hits[n].score
      {
        k := k - 1;
      }
      InsertedSorted(h, k, hits[n]);
      InsertedSameHits(h, k, hits, n);
      h := Inserted(h, k, hits[n]);
    }
  }

  function Gap(h: seq<Hit>, i: nat): (g: real)
    requires 0 < i < |h|
  {
    h[i - 1].score - h[i].score
  }

  /** `i` is the first place where the drop is largest. */
  predicate FirstLargestGap(h: seq<Hit>, i: nat)
  {
    && 0 < i < |h|
    && (forall j :: 0 < j < |h| ==> Gap(h, j) <= Gap(h, i))
    && (forall j :: 0 < j < i ==> Gap(h, j) < Gap(h, i))
  }

  /** Where the list is cut: before the first largest drop, unless all drops are under 0.05. */
  ghost predicate IsCliff(h: seq<Hit>, cliff: nat)
  {
    if forall i :: 0 < i < |h| ==> Gap(h, i) < 0.05
    then cliff == if |h| < 3 then |h| else 3
    else FirstLargestGap(h, cliff) && Gap(h, cliff) >= 0.05
  }

  lemma CliffUnique(h: seq<Hit>, a: nat, b: nat)
    requires IsCliff(h, a) && IsCliff(h, b)
    ensures a == b
  {
  }

  function Snippet(h: seq<Hit>, i: nat): (r: string)
    requires i < |h|
  {
    "[" + Decimal(i + 1) + "] " + h[i].content + "\n"
  }

  /** The first `m` hits, numbered by rank. */
  function Render(h: seq<Hit>, m: nat): (r: string)
    requires m <= |h|
  {
    if m == 0 then "" else Render(h, m - 1) + Snippet(h, m - 1)
  }

  function Concat(parts: seq<string>): (r: string)
  {
    if parts == [] then "" else parts[0] + Concat(parts[1..])
  }

  lemma {:induction false} ConcatSnoc(parts: seq<string>, last: string)
    ensures Concat(parts + [last]) == Concat(parts) + last
  {
    if parts == [] {
      assert parts + [last] == [last] && [last][1..] == [];
    } else {
      assert (parts + [last])[1..] == parts[1..] + [last];
      ConcatSnoc(parts[1..], last);
      ConcatAssoc(parts[0], Concat(parts[1..]), last);
    }
  }

  /** The context, line by line: the rank from 1 on in brackets, a space, the text, a line feed. */
  lemma {:induction false} RenderExactly(h: seq<Hit>, m: nat)
    requires m <= |h|
    ensures Render(h, m) == Concat(seq(m, i requires 0 <= i < m => "[" + Decimal(i + 1) + "] " + h[i].content + "\n"))
  {
    var lines := seq(m, i requires 0 <= i < m => "[" + Decimal(i + 1) + "] " + h[i].content + "\n");
    if m > 0 {
      RenderExactly(h, m - 1);
      var before := seq(m - 1, i requires 0 <= i < m - 1 => "[" + Decimal(i + 1) + "] " + h[i].content + "\n");
      assert lines == before + [lines[m - 1]];
      ConcatSnoc(before, lines[m - 1]);
    }
  }

  predicate Fits(h: seq<Hit>, i: nat)
    requires i < |h|
  {
    h[i].score > 0.45 && |Render(h, i)| + |h[i].content| <= MAX_CONTEXT_LENGTH
  }

  /** Hits are taken from the top, up to the first that is past the cliff, weak or too long. */
  ghost predicate Chosen(h: seq<Hit>, m: nat)
  {
    && m <= |h|
    && (forall i :: 0 <= i < m ==> Fits(h, i))
    && exists cliff: nat :: IsCliff(h, cliff) && m <= cliff <= |h| && (m < cliff ==> !Fits(h, m))
  }

  lemma ChosenUnique(h: seq<Hit>, a: nat, b: nat)
    requires Chosen(h, a) && Chosen(h, b)
    ensures a == b
  {
    var c: nat :| IsCliff(h, c) && a <= c <= |h| && (a < c ==> !Fits(h, a));
    var d: nat :| IsCliff(h, d) && b <= d <= |h| && (b < d ==> !Fits(h, b));
    CliffUnique(h, c, d);
  }

  /** In numbers: each chosen hit scores above 0.45 and keeps what is there with its text within 1000 bytes; behind
      them comes the cliff, or a hit of which one of the two does not hold. */
  lemma ChosenExactly(h: seq<Hit>, m: nat)
    requires Chosen(h, m)
    ensures forall i: nat :: i < m && i < |h| ==> h[i].score > 0.45 && |Render(h, i)| + |h[i].content| <= 1000
    ensures IsCliff(h, m) || (m < |h| && (h[m].score <= 0.45 || |Render(h, m)| + |h[m].content| > 1000))
  {
    hide IsCliff, Render;
    forall i: nat | i < m ensures h[i].score > 0.45 && |Render(h, i)| + |h[i].content| <= 1000 { assert Fits(h, i); }
    var cliff: nat :| IsCliff(h, cliff) && m <= cliff <= |h| && (m < cliff ==> !Fits(h, m));
  }

  lemma DecimalShort(n: nat)
    requires n <= 99
    ensures |Decimal(n)| <= 2
  {
  }

  /** The budget: at most 1006 bytes reach the prompt. */
  lemma ContextBounded(h: seq<Hit>, m: nat)
    requires Chosen(h, m) && |h| <= 15
    ensures |Render(h, m)| <= 1006
  {
    if m > 0 {
      assert Fits(h, m - 1);
      DecimalShort(m);
    }
  }

  method FindCliff(h: seq<Hit>) returns (cliff: nat)
    requires Descending(h) && h != []
    ensures IsCliff(h, cliff) && cliff <= |h|
  {
    var maxGap := 0.0;
    cliff := |h|;
    var i := 1;
    while i < |h|
      invariant 1 <= i <= |h|
      invariant maxGap >= 0.0 && forall j :: 0 < j < i ==> Gap(h, j) <= maxGap
      invariant maxGap > 0.0 ==> 0 < cliff < i && Gap(h, cliff) == maxGap
      invariant maxGap > 0.0 ==> forall j :: 0 < j < cliff ==> Gap(h, j) < maxGap
    {
      var gap := h[i - 1].score - h[i].score;
      assert gap == Gap(h, i);
      if gap > maxGap { maxGap, cliff := gap, i; }
      i := i + 1;
    }
    if maxGap < 0.05 { cliff := if |h| < 3 then |h| else 3; }
  }

  /** In numbers: three hits, or all, if no drop reaches 0.05; else the first place where the drop is largest. */
  lemma CliffExactly(h: seq<Hit>, cliff: nat)
    requires IsCliff(h, cliff)
    ensures (forall i :: 0 < i < |h| ==> h[i - 1].score - h[i].score < 0.05) ==> cliff == if |h| < 3 then |h| else 3
    ensures (exists i :: 0 < i < |h| && h[i - 1].score - h[i].score >= 0.05) ==>
              && 0 < cliff < |h| && (forall j :: 0 < j < |h| ==> Gap(h, j) <= h[cliff - 1].score - h[cliff].score)
              && (forall j :: 0 < j < cliff ==> Gap(h, j) < h[cliff - 1].score - h[cliff].score)
  {
    if i: nat :| 0 < i < |h| && h[i - 1].score - h[i].score >= 0.05 { assert Gap(h, i) >= 0.05; }
  }

  /** The context for the prompt, and how many hits went into it; none when it stays without knowledge. */
  method BuildRagContext(hits: seq<Hit>) returns (h: seq<Hit>, strongContext: string, ghost m: nat, confident: bool)
    ensures Descending(h) && SameHits(h, hits)
    ensures h != [] ==> Chosen(h, m)
    ensures h == [] ==> m == 0
    ensures strongContext == Render(h, m) && (confident <==> m > 0)
    ensures |hits| <= 15 ==> |strongContext| <= 1006
  {
    h := Sort(hits);
    assert |h| == |multiset(h)| == |hits|;
    strongContext, m, confident := "", 0, false;
    if h == [] { return; }
    var cliff := FindCliff(h);
    var currentLength := 0;
    var i := 0;
    while i < cliff
      invariant 0 <= m <= i <= cliff
      invariant strongContext == Render(h, m) && currentLength == |strongContext| && (confident <==> m > 0)
      invariant forall j :: 0 <= j < m ==> Fits(h, j)
      invariant m < i ==> h[m].score <= 0.45
    {
      if h[i].score > 0.45 {
        assert m == i;
        if currentLength + |h[i].content| > MAX_CONTEXT_LENGTH { break; }
        var snippet := "[" + Decimal(i + 1) + "] " + h[i].content + "\n";
        strongContext := strongContext + snippet;
        currentLength := currentLength + |snippet|;
        confident := true;
        m := m + 1;
      }
      i := i + 1;
    }
    assert Chosen(h, m) by {
      assert IsCliff(h, cliff) && m <= cliff <= |h|;
      assert m < cliff ==> !Fits(h, m);
    }
    if |hits| <= 15 { ContextBounded(h, m); }
  }

  // ---------- The session memory ----------

  datatype Message =
    | System(content: string)
    | User(content: string)
    | Assistant(content: string)
    | ToolCall(id: string)
    | ToolResult(id: string, result: Result)

  /** A tool's text, alone or with the reviewing model's advice wrapped around it. */
  datatype Result = Bare(text: string) | Reviewed(text: string, advice: string)

  type Pairs = seq<(string, string)>

  function Talk(pairs: Pairs): (r: seq<Message>)
    ensures |r| == 2 * |pairs|
  {
    if pairs == [] then []
    else Talk(pairs[..|pairs| - 1]) + [User(pairs[|pairs| - 1].0), Assistant(pairs[|pairs| - 1].1)]
  }

  function LastNine(pairs: Pairs): (r: Pairs)
  {
    if |pairs| > 9 then pairs[|pairs| - 9..] else pairs
  }

  /** The system prompt and the last nine exchanges. */
  function History(system: string, pairs: Pairs): (r: seq<Message>)
    ensures |r| <= 19
  {
    [System(system)] + Talk(LastNine(pairs))
  }

  lemma {:induction false} TalkAt(pairs: Pairs, k: nat)
    requires k < |pairs|
    ensures Talk(pairs)[2 * k] == User(pairs[k].0) && Talk(pairs)[2 * k + 1] == Assistant(pairs[k].1)
  {
    if k < |pairs| - 1 { TalkAt(pairs[..|pairs| - 1], k); }
  }

  /** Message for message: the system prompt, then question and answer of each of the last nine, oldest first. */
  lemma HistoryExactly(system: string, pairs: Pairs)
    ensures var h, from := History(system, pairs), if |pairs| > 9 then |pairs| - 9 else 0;
            && |h| == 1 + 2 * (|pairs| - from) && h[0] == System(system)
            && forall k: nat :: from <= k < |pairs| ==>
                 h[1 + 2 * (k - from)] == User(pairs[k].0) && h[2 + 2 * (k - from)] == Assistant(pairs[k].1)
  {
    var from := if |pairs| > 9 then |pairs| - 9 else 0;
    var last := LastNine(pairs);
    forall k: nat | from <= k < |pairs|
      ensures Talk(last)[2 * (k - from)] == User(pairs[k].0) && Talk(last)[1 + 2 * (k - from)] == Assistant(pairs[k].1)
    {
      TalkAt(last, k - from);
    }
  }

  /** Two messages are pushed; past twenty the oldest two after the system prompt go. */
  function Saved(history: seq<Message>, question: string, answer: string): (r: seq<Message>)
  {
    var pushed := history + [User(question)] + [Assistant(answer)];
    if |pushed| > 20 then pushed[..1] + pushed[3..] else pushed
  }

  lemma {:induction false} TalkDropsFirst(pairs: Pairs)
    requires pairs != []
    ensures Talk(pairs)[2..] == Talk(pairs[1..])
  {
    var last := |pairs| - 1;
    if last > 0 {
      TalkDropsFirst(pairs[..last]);
      assert pairs[1..][..last - 1] == pairs[..last][1..];
      assert Talk(pairs)[2..] == Talk(pairs[..last])[2..] + [User(pairs[last].0), Assistant(pairs[last].1)];
    } else {
      assert pairs[1..] == [];
    }
  }

  /** Saving a turn slides the window by one exchange. */
  lemma SavedSlides(system: string, pairs: Pairs, question: string, answer: string)
    ensures Saved(History(system, pairs), question, answer) == History(system, pairs + [(question, answer)])
  {
    var last := LastNine(pairs);
    var more := last + [(question, answer)];
    assert more[..|last|] == last;
    TalkDropsFirst(more);
    assert Talk(more) == Talk(last) + [User(question), Assistant(answer)];
    var pushed := History(system, pairs) + [User(question)] + [Assistant(answer)];
    assert pushed == [System(system)] + Talk(more);
    if |pairs| >= 9 {
      assert LastNine(pairs + [(question, answer)]) == more[1..];
      assert pushed[..1] + pushed[3..] == [System(system)] + Talk(more)[2..];
    } else {
      assert LastNine(pairs + [(question, answer)]) == more;
    }
  }

  // ---------- The tool loop ----------

  const MAX_TOOL_CALLS := 6
  const MAX_RETRY := 3

  /** What the models made of one request: both failed, the reply could not be read (an exception),
      a tool call, or an answer. */
  datatype Reply = NoReply | Unreadable | Call(id: string) | Answer(text: string)

  /** What a tool call gave: its text, whether that looks like an error, and the reviewing model's advice. */
  datatype Invocation = Invocation(text: string, looksFailed: bool, advice: Option<string>)

  /** The models' replies and the tools' results, in the order in which they are asked for. */
  datatype World = World(replies: nat -> Reply, tools: nat -> Invocation)

  datatype Outcome = ApiFailed | Crashed | TimedOut | Answered(text: string)

  /** How a turn ends when `n` tool calls have been made. */
  function OutcomeFrom(w: World, n: nat): (r: Outcome)
    requires n <= MAX_TOOL_CALLS
    decreases MAX_TOOL_CALLS - n
  {
    if n == MAX_TOOL_CALLS then TimedOut
    else
      match w.replies(n)
      case NoReply => ApiFailed
      case Unreadable => Crashed
      case Call(_) => OutcomeFrom(w, n + 1)
      case Answer(text) => Answered(text)
  }

  predicate OnlyCalls(w: World, n: nat)
  {
    forall i :: 0 <= i < n ==> w.replies(i).Call?
  }

  lemma {:induction false} OutcomeAfterCalls(w: World, n: nat)
    requires OnlyCalls(w, n) && n <= MAX_TOOL_CALLS
    ensures OutcomeFrom(w, 0) == OutcomeFrom(w, n)
  {
    if n > 0 { OutcomeAfterCalls(w, n - 1); }
  }

  /** A turn is answered exactly if an answer comes within six replies, after nothing but tool calls. */
  lemma {:induction false} AnsweredExactly(w: World, text: string)
    ensures OutcomeFrom(w, 0) == Answered(text)
       <==> exists n :: 0 <= n < 6 && OnlyCalls(w, n) && w.replies(n) == Answer(text)
  {
    if n: nat :| n < MAX_TOOL_CALLS && OnlyCalls(w, n) && w.replies(n) == Answer(text) {
      OutcomeAfterCalls(w, n);
    }
    if OutcomeFrom(w, 0) == Answered(text) { AnsweredComesFrom(w, 0, text); }
  }

  lemma {:induction false} AnsweredComesFrom(w: World, n: nat, text: string)
    requires n <= MAX_TOOL_CALLS && OnlyCalls(w, n) && OutcomeFrom(w, n) == Answered(text)
    ensures exists k :: 0 <= k < MAX_TOOL_CALLS && OnlyCalls(w, k) && w.replies(k) == Answer(text)
    decreases MAX_TOOL_CALLS - n
  {
    if n < MAX_TOOL_CALLS && w.replies(n).Call? { AnsweredComesFrom(w, n + 1, text); }
  }

  /** The three other ends: nobody answers, or the reply cannot be read, at the first reply that is no tool call; six
      tool calls and no more. */
  lemma EndsExactly(w: World)
    ensures OutcomeFrom(w, 0) == ApiFailed <==> exists n :: 0 <= n < 6 && OnlyCalls(w, n) && w.replies(n) == NoReply
    ensures OutcomeFrom(w, 0) == Crashed <==> exists n :: 0 <= n < 6 && OnlyCalls(w, n) && w.replies(n) == Unreadable
    ensures OutcomeFrom(w, 0) == TimedOut <==> OnlyCalls(w, 6)
  {
    var n := FirstOther(w, 0);
    OutcomeAfterCalls(w, n);
    forall k: nat | OnlyCalls(w, k) && k < 6 && !w.replies(k).Call? ensures k == n {
      FirstUnique(w, k, n);
    }
    assert n < 6 ==> !OnlyCalls(w, 6);
  }

  lemma FirstUnique(w: World, k: nat, n: nat)
    requires OnlyCalls(w, k) && OnlyCalls(w, n)
    requires k < 6 && !w.replies(k).Call? && n <= 6 && (n == 6 || !w.replies(n).Call?)
    ensures k == n
  {
  }

  /** The first reply that is no tool call, or six. */
  function FirstOther(w: World, n: nat): (k: nat)
    requires n <= 6 && OnlyCalls(w, n)
    ensures n <= k <= 6 && OnlyCalls(w, k) && (k < 6 ==> !w.replies(k).Call?)
    decreases 6 - n
  {
    if n == 6 || !w.replies(n).Call? then n else FirstOther(w, n + 1)
  }

  /** Reviews asked for in the first `n` tool calls. */
  function Retries(w: World, n: nat): (r: nat)
    ensures r <= MAX_RETRY
  {
    if n == 0 then 0
    else if w.tools(n - 1).looksFailed && Retries(w, n - 1) < MAX_RETRY then Retries(w, n - 1) + 1
    else Retries(w, n - 1)
  }

  function Failures(w: World, n: nat): (r: nat)
  {
    if n == 0 then 0 else Failures(w, n - 1) + if w.tools(n - 1).looksFailed then 1 else 0
  }

  /** The reviewing model sees the first three failures of a turn and no other. */
  lemma {:induction false} RetriesExactly(w: World, n: nat)
    ensures Retries(w, n) == if Failures(w, n) < 3 then Failures(w, n) else 3
  {
    if n > 0 { RetriesExactly(w, n - 1); }
  }

  /** What the model is told of the `n`-th tool call. */
  function Told(w: World, n: nat): (r: Result)
  {
    var i := w.tools(n);
    if i.looksFailed && Retries(w, n) < MAX_RETRY && i.advice.Some? then Reviewed(i.text, i.advice.value)
    else Bare(i.text)
  }

  /** The traffic of the first `n` tool calls: each call, then its own result. */
  function ToolTalk(w: World, n: nat): (r: seq<Message>)
    requires OnlyCalls(w, n)
  {
    if n == 0 then []
    else
      var id := w.replies(n - 1).id;
      ToolTalk(w, n - 1) + [ToolCall(id), ToolResult(id, Told(w, n - 1))]
  }

  /** The model hears of each tool call and right behind it of that call's own result, with advice around it exactly
      if it failed, as one of the first three failures, and the reviewing model answered. */
  lemma ToolTalkExactly(w: World, n: nat)
    requires OnlyCalls(w, n)
    ensures |ToolTalk(w, n)| == 2 * n
    ensures forall k :: 0 <= k < n ==>
              && ToolTalk(w, n)[2 * k] == ToolCall(w.replies(k).id)
              && ToolTalk(w, n)[2 * k + 1]
              == ToolResult(w.replies(k).id,
                            if w.tools(k).looksFailed && Failures(w, k) < 3 && w.tools(k).advice.Some?
                            then Reviewed(w.tools(k).text, w.tools(k).advice.value) else Bare(w.tools(k).text))
  {
    hide OnlyCalls, ToolTalk, Failures;
    ToolTalkLength(w, n);
    forall k: nat | k < n
      ensures w.replies(k).Call? && ToolTalk(w, n)[2 * k] == ToolCall(w.replies(k).id)
      ensures ToolTalk(w, n)[2 * k + 1]
           == ToolResult(w.replies(k).id,
                         if w.tools(k).looksFailed && Failures(w, k) < 3 && w.tools(k).advice.Some?
                         then Reviewed(w.tools(k).text, w.tools(k).advice.value) else Bare(w.tools(k).text))
    {
      ToolTalkAt(w, n, k);
      RetriesExactly(w, k);
    }
  }

  lemma {:induction false} ToolTalkLength(w: World, n: nat)
    requires OnlyCalls(w, n)
    ensures |ToolTalk(w, n)| == 2 * n
  {
    hide Told;
    if n > 0 { ToolTalkLength(w, n - 1); }
  }

  lemma {:induction false} ToolTalkAt(w: World, n: nat, k: nat)
    requires OnlyCalls(w, n) && k < n
    ensures |ToolTalk(w, n)| == 2 * n && w.replies(k).Call?
    ensures ToolTalk(w, n)[2 * k] == ToolCall(w.replies(k).id)
    ensures ToolTalk(w, n)[2 * k + 1] == ToolResult(w.replies(k).id, Told(w, k))
  {
    hide Told;
    ToolTalkLength(w, n - 1);
    if k < n - 1 { ToolTalkAt(w, n - 1, k); }
  }

  // ---------- The store of sessions ----------

  type Store = map<string, seq<Message>>

  /** A turn of a client; saving it may make the cache evict others. */
  datatype Turn = Turn(client: string, question: string, world: World, victims: set<string>)

  function Loaded(store: Store, system: string, client: string): (r: seq<Message>)
  {
    if client in store then store[client] else [System(system)]
  }

  /** `Put` of a history under a client, with what the cache drops for it. */
  function Stored(store: Store, client: string, history: seq<Message>, victims: set<string>): (r: Store)
  {
    (store - (victims - {client}))[client := history]
  }

  // ---------- The classes ----------

  class SessionMemory {
    var entries: Store

    method Put(client: string, value: seq<Message>, victims: set<string>)
      modifies this
      ensures entries == Stored(old(entries), client, value, victims)
    {
      entries := (entries - (victims - {client}))[client := value];
    }

    /** What the turns that run at the same time make of the store. */
    method Others(meanwhile: Store)
      modifies this
      ensures entries == meanwhile
    {
      entries := meanwhile;
    }
  }

  class AgentWorkflow {
    const sessionMemory: SessionMemory
    const systemPrompt: string
    var finalPrompt: string
    var messagesArray: seq<Message>
    var currentTurnMessages: seq<Message>
    var toolCallCount: nat
    var retryCount: nat

    constructor (sessionMemory: SessionMemory, systemPrompt: string, finalPrompt: string)
      ensures this.sessionMemory == sessionMemory && this.systemPrompt == systemPrompt
      ensures this.finalPrompt == finalPrompt && toolCallCount == 0 && retryCount == 0
    {
      this.sessionMemory, this.systemPrompt, this.finalPrompt := sessionMemory, systemPrompt, finalPrompt;
      messagesArray, currentTurnMessages, toolCallCount, retryCount := [], [], 0, 0;
    }

    method LoadSessionMemory(client: string)
      modifies this
      ensures messagesArray == Loaded(sessionMemory.entries, systemPrompt, client)
      ensures currentTurnMessages == messagesArray + [User(finalPrompt)]
      ensures toolCallCount == old(toolCallCount) && retryCount == old(retryCount) && finalPrompt == old(finalPrompt)
    {
      if client in sessionMemory.entries {
        messagesArray := sessionMemory.entries[client];
      } else {
        messagesArray := [System(systemPrompt)];
      }
      currentTurnMessages := messagesArray + [User(finalPrompt)];
    }

    method SaveSessionMemory(t: Turn, finalSummary: string)
      modifies this`messagesArray, sessionMemory
      ensures sessionMemory.entries ==
              Stored(old(sessionMemory.entries), t.client, Saved(old(messagesArray), t.question, finalSummary), t.victims)
    {
      messagesArray := messagesArray + [User(t.question)];
      messagesArray := messagesArray + [Assistant(finalSummary)];
      if |messagesArray| > 20 { messagesArray := messagesArray[..1] + messagesArray[3..]; }
      sessionMemory.Put(t.client, messagesArray, t.victims);
    }

    /** The reviewing model is asked about a failure at most three times a turn. */
    method InvokeRpcTool(i: Invocation) returns (result: Result)
      modifies this`retryCount
      ensures retryCount == old(retryCount) + if i.looksFailed && old(retryCount) < MAX_RETRY then 1 else 0
      ensures result == if i.looksFailed && old(retryCount) < MAX_RETRY && i.advice.Some?
                        then Reviewed(i.text, i.advice.value) else Bare(i.text)
    {
      result := Bare(i.text);
      if i.looksFailed && retryCount < MAX_RETRY {
        retryCount := retryCount + 1;
        if i.advice.Some? { result := Reviewed(i.text, i.advice.value); }
      }
    }

    method ExecuteReActLoop(t: Turn) returns (outcome: Outcome)
      requires toolCallCount == 0 && retryCount == 0
      modifies this, sessionMemory
      ensures outcome == OutcomeFrom(t.world, 0)
      ensures outcome.Answered? ==>
                sessionMemory.entries ==
                Stored(old(sessionMemory.entries), t.client, Saved(old(messagesArray), t.question, outcome.text),
                       t.victims)
      ensures !outcome.Answered? ==> sessionMemory.entries == old(sessionMemory.entries)
      ensures toolCallCount <= MAX_TOOL_CALLS && OnlyCalls(t.world, toolCallCount)
      ensures retryCount == Retries(t.world, toolCallCount)
      ensures currentTurnMessages == old(currentTurnMessages) + ToolTalk(t.world, toolCallCount)
                                     + (if outcome.Answered? then [Assistant(outcome.text)] else [])
    {
      ghost var before := currentTurnMessages;
      while toolCallCount < MAX_TOOL_CALLS
        invariant toolCallCount <= MAX_TOOL_CALLS && OnlyCalls(t.world, toolCallCount)
        invariant OutcomeFrom(t.world, toolCallCount) == OutcomeFrom(t.world, 0)
        invariant retryCount == Retries(t.world, toolCallCount)
        invariant currentTurnMessages == before + ToolTalk(t.world, toolCallCount)
        invariant sessionMemory.entries == old(sessionMemory.entries) && messagesArray == old(messagesArray)
      {
        var reply := t.world.replies(toolCallCount);
        match reply
        case NoReply => return ApiFailed;
        case Unreadable => return Crashed;
        case Call(id) =>
          currentTurnMessages := currentTurnMessages + [ToolCall(id)];
          var i := t.world.tools(toolCallCount);
          toolCallCount := toolCallCount + 1;
          var result := InvokeRpcTool(i);
          currentTurnMessages := currentTurnMessages + [ToolResult(id, result)];
          ConcatAssoc(before, ToolTalk(t.world, toolCallCount - 1), [ToolCall(id), ToolResult(id, result)]);
        case Answer(text) =>
          currentTurnMessages := currentTurnMessages + [Assistant(text)];
          SaveSessionMemory(t, text);
          return Answered(text);
      }
      return TimedOut;
    }

    /** The whole turn, with other turns between the load and the save: an answer goes behind the history
        that was loaded, into the store as it is by then; anything else leaves the store to the others. */
    method Run(t: Turn, meanwhile: Store) returns (outcome: Outcome)
      requires toolCallCount == 0 && retryCount == 0
      modifies this, sessionMemory
      ensures outcome == OutcomeFrom(t.world, 0)
      ensures outcome.Answered? ==>
                sessionMemory.entries ==
                Stored(meanwhile, t.client,
                       Saved(Loaded(old(sessionMemory.entries), systemPrompt, t.client), t.question, outcome.text),
                       t.victims)
      ensures !outcome.Answered? ==> sessionMemory.entries == meanwhile
    {
      hide OutcomeFrom, ToolTalk, OnlyCalls, Retries;
      LoadSessionMemory(t.client);
      sessionMemory.Others(meanwhile);
      outcome := ExecuteReActLoop(t);
    }
  }
}
