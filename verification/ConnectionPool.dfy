/** The MySQL connection pool: a producer thread, borrowers and the deleter that gives back, all under
    one lock. Connections are numbered in the order in which they were allocated. */
module ConnectionPools {
  import opened Bytes

  const INIT_SIZE := 5
  const MAX_SIZE := 15

  datatype State = State(
    queue: seq<nat>,
    borrowed: set<nat>,
    connectionCnt: nat,
    made: nat,
    pool: set<nat>,      // connected successfully at some time
    peak: nat)           // most connections borrowed at once

  datatype Event =
    | Produce(connects: bool)  // the producer finds the queue empty
    | Borrow
    | TimeOut                  // a borrower's wait ends by time, whatever the queue holds by then
    | Release(p: nat)

  const EMPTY := State([], {}, 0, 0, {}, 0)

  function Pushed(s: State): (t: State)
  {
    s.(queue := s.queue + [s.made], connectionCnt := s.connectionCnt + 1, pool := s.pool + {s.made})
  }

  /** One `new` and `connect`; an object that fails to connect is dropped. */
  function Connect(s: State, connects: bool): (t: State)
  {
    (if connects then Pushed(s) else s).(made := s.made + 1)
  }

  predicate Enabled(s: State, e: Event)
  {
    match e
    case Produce(_) => s.queue == []
    case Borrow => s.queue != []
    case TimeOut => true
    case Release(p) => p in s.borrowed
  }

  function Max(a: nat, b: nat): (m: nat)
    ensures m >= a && m >= b && (m == a || m == b)
  {
    if a < b then b else a
  }

  function Next(s: State, e: Event): (t: State)
    requires Enabled(s, e)
  {
    match e
    case Produce(connects) => if s.connectionCnt < MAX_SIZE then Connect(s, connects) else s
    case Borrow =>
      var borrowed := s.borrowed + {s.queue[0]};
      s.(queue := s.queue[1..], borrowed := borrowed, peak := Max(s.peak, |borrowed|))
    case TimeOut => s
    case Release(p) => s.(queue := s.queue + [p], borrowed := s.borrowed - {p})
  }

  predicate Distinct(q: seq<nat>)
  {
    forall i, j :: 0 <= i < j < |q| ==> q[i] != q[j]
  }

  function Elements(q: seq<nat>): (r: set<nat>)
  {
    set x | x in q
  }

  /** Every connection of the pool is in exactly one place, the counter counts them, and there are more
      than at the start only if that many were needed at once. */
  predicate Inv(s: State)
  {
    && Distinct(s.queue)
    && Elements(s.queue) !! s.borrowed
    && Elements(s.queue) + s.borrowed == s.pool
    && |s.queue| + |s.borrowed| == s.connectionCnt <= MAX_SIZE
    && |s.borrowed| <= s.peak && s.connectionCnt <= Max(INIT_SIZE, s.peak + 1)
    && forall p :: p in s.pool ==> p < s.made
  }

  lemma PushElements(q: seq<nat>, x: nat)
    ensures Elements(q + [x]) == Elements(q) + {x}
    ensures Distinct(q) && x !in q ==> Distinct(q + [x])
  {
    assert (q + [x])[|q|] == x;
    forall y | y in q ensures y in q + [x] {
      var i :| 0 <= i < |q| && q[i] == y;
      assert (q + [x])[i] == y;
    }
  }

  lemma PopElements(q: seq<nat>)
    requires q != [] && Distinct(q)
    ensures Elements(q[1..]) == Elements(q) - {q[0]} && Distinct(q[1..])
  {
  }

  lemma ConnectKeepsInv(s: State, connects: bool)
    requires Inv(s) && s.connectionCnt < MAX_SIZE && s.connectionCnt < Max(INIT_SIZE, s.peak + 1)
    ensures Inv(Connect(s, connects))
  {
    hide Elements, Distinct, Max;
    PushElements(s.queue, s.made);
    assert s.made !in s.queue by { NotQueued(s); }
  }

  lemma NotQueued(s: State)
    requires Inv(s)
    ensures s.made !in s.queue
  {
    assert forall x :: x in s.queue ==> x in Elements(s.queue);
  }

  lemma MoveOne(from: set<nat>, to: set<nat>, p: nat)
    requires p in from && from !! to
    ensures (from - {p}) !! (to + {p}) && (from - {p}) + (to + {p}) == from + to && |to + {p}| == |to| + 1
  {
  }

  lemma BorrowKeepsInv(s: State)
    requires Inv(s) && s.queue != []
    ensures Inv(Next(s, Borrow))
  {
    PopElements(s.queue);
    var p := s.queue[0];
    assert p in Elements(s.queue);
    hide Elements, Distinct, Max;
    MoveOne(Elements(s.queue), s.borrowed, p);
  }

  lemma ReleaseKeepsInv(s: State, p: nat)
    requires Inv(s) && p in s.borrowed
    ensures Inv(Next(s, Release(p)))
  {
    PushElements(s.queue, p);
    assert p in s.queue ==> p in Elements(s.queue);
    hide Elements, Distinct, Max;
    assert |s.borrowed - {p}| == |s.borrowed| - 1;
  }

  lemma StepKeepsInv(s: State, e: Event)
    requires Inv(s) && Enabled(s, e)
    ensures Inv(Next(s, e)) && s.pool <= Next(s, e).pool
  {
    match e
    case Produce(connects) => if s.connectionCnt < MAX_SIZE { ConnectKeepsInv(s, connects); }
    case Borrow => BorrowKeepsInv(s);
    case TimeOut =>
    case Release(p) => ReleaseKeepsInv(s, p);
  }

  /** Giving back keeps order exactly for a connection that is out: anything else is counted twice. */
  lemma ReleaseExactly(s: State, p: nat)
    requires Inv(s)
    ensures Inv(s.(queue := s.queue + [p], borrowed := s.borrowed - {p})) <==> p in s.borrowed
  {
    if p in s.borrowed {
      ReleaseKeepsInv(s, p);
    } else {
      assert s.borrowed - {p} == s.borrowed;
    }
  }

  // ---------- Whole runs ----------

  ghost predicate Reaches(before: State, run: seq<Event>, after: State)
    decreases |run|
  {
    if run == [] then after == before
    else Enabled(before, run[0]) && Reaches(Next(before, run[0]), run[1..], after)
  }

  /** The first connects of the constructor. */
  function Started(outcomes: seq<bool>): (s: State)
  {
    if outcomes == [] then EMPTY else Connect(Started(outcomes[..|outcomes| - 1]), outcomes[|outcomes| - 1])
  }

  lemma {:induction false} StartedInv(outcomes: seq<bool>)
    requires |outcomes| <= INIT_SIZE
    ensures Inv(Started(outcomes)) && Started(outcomes).connectionCnt <= |outcomes| && Started(outcomes).borrowed == {}
  {
    if outcomes != [] {
      hide Inv;
      var before := outcomes[..|outcomes| - 1];
      StartedInv(before);
      ConnectKeepsInv(Started(before), outcomes[|outcomes| - 1]);
    }
  }

  lemma {:induction false} RunKeepsInv(before: State, run: seq<Event>, after: State)
    requires Inv(before) && Reaches(before, run, after)
    ensures Inv(after) && before.pool <= after.pool
    decreases |run|
  {
    if run != [] {
      hide Inv, Next;
      StepKeepsInv(before, run[0]);
      RunKeepsInv(Next(before, run[0]), run[1..], after);
    }
  }

  /** In every interleaving: no connection is in two places or lost, the counter is their number, never
      more than 15, and the pool has grown only as far as simultaneous demand made it. */
  lemma Conservation(outcomes: seq<bool>, run: seq<Event>, s: State)
    requires |outcomes| == INIT_SIZE && Reaches(Started(outcomes), run, s)
    ensures Distinct(s.queue) && forall p :: p in s.queue ==> p !in s.borrowed
    ensures forall p :: p in s.pool <==> p in s.queue || p in s.borrowed
    ensures Started(outcomes).pool <= s.pool
    ensures s.connectionCnt == |s.queue| + |s.borrowed| <= 15
    ensures s.connectionCnt <= Max(5, s.peak + 1)
  {
    StartedInv(outcomes);
    RunKeepsInv(Started(outcomes), run, s);
    assert forall p :: p in s.queue <==> p in Elements(s.queue);
  }

  // ---------- Connections are handed out in the order in which they came ----------

  /** The connections put into the queue over a run: new ones that connect while there are fewer than fifteen, and
      those given back. */
  ghost function Put(before: State, run: seq<Event>): (r: seq<nat>)
    decreases |run|
  {
    if run == [] || !Enabled(before, run[0]) then []
    else
      (match run[0]
       case Produce(connects) => if connects && before.connectionCnt < 15 then [before.made] else []
       case Release(p) => [p]
       case _ => [])
      + Put(Next(before, run[0]), run[1..])
  }

  /** Those handed to borrowers. */
  ghost function HandedOut(before: State, run: seq<Event>): (r: seq<nat>)
    decreases |run|
  {
    if run == [] || !Enabled(before, run[0]) then []
    else (if run[0].Borrow? then [before.queue[0]] else []) + HandedOut(Next(before, run[0]), run[1..])
  }

  /** In every run the borrowers get, in order, what was in the queue and then what was put there; the queue keeps
      the rest. A producer below the limit whose connect succeeds always adds its connection. */
  lemma {:induction false} FirstComeFirstServed(before: State, run: seq<Event>, after: State)
    requires Reaches(before, run, after)
    ensures before.queue + Put(before, run) == HandedOut(before, run) + after.queue
    decreases |run|
  {
    if run == [] {
      assert before.queue + [] == [] + after.queue;
    } else {
      var mid := Next(before, run[0]);
      FirstComeFirstServed(mid, run[1..], after);
      var put, out := Put(mid, run[1..]), HandedOut(mid, run[1..]);
      match run[0]
      case Produce(_) =>
        ConcatAssoc(before.queue, [before.made], put);
        assert [] + put == put && [] + out == out;
      case Release(p) =>
        ConcatAssoc(before.queue, [p], put);
        assert [] + out == out;
      case Borrow =>
        ConcatAssoc([before.queue[0]], before.queue[1..], put);
        ConcatAssoc([before.queue[0]], out, after.queue);
        assert before.queue == [before.queue[0]] + before.queue[1..];
        assert [] + put == put;
      case TimeOut => assert [] + put == put && [] + out == out;
    }
  }

  // ---------- The class ----------

  class ConnectionPool {
    var connectionQue: seq<nat>
    var connectionCnt: nat
    ghost var state: State

    ghost predicate Valid()
      reads this
    {
      state.queue == connectionQue && state.connectionCnt == connectionCnt
    }

    /** The outcomes say which of the initial connects succeed. */
    constructor (outcomes: seq<bool>)
      requires |outcomes| == INIT_SIZE
      ensures Valid() && state == Started(outcomes) && Inv(state)
    {
      connectionQue, connectionCnt := [], 0;
      state := EMPTY;
      new;
      for i := 0 to INIT_SIZE
        invariant Valid() && state == Started(outcomes[..i]) && state.made == i
      {
        assert outcomes[..i + 1][..i] == outcomes[..i];
        if outcomes[i] {
          connectionQue := connectionQue + [i];
          connectionCnt := connectionCnt + 1;
        }
        state := Connect(state, outcomes[i]);
      }
      assert outcomes[..INIT_SIZE] == outcomes;
      StartedInv(outcomes);
    }

    /** The body of the producer's loop once the queue is empty; `p` is the new object. */
    method ProduceConnection(p: nat, connects: bool)
      requires Valid() && Enabled(state, Produce(connects)) && p == state.made
      modifies this
      ensures Valid() && state == Next(old(state), Produce(connects))
      ensures (connectionQue, connectionCnt) == if connects && old(connectionCnt) < 15
                                                then (old(connectionQue) + [p], old(connectionCnt) + 1)
                                                else (old(connectionQue), old(connectionCnt))
    {
      state := Next(state, Produce(connects));
      if connectionCnt < MAX_SIZE {
        if connects {
          connectionQue := connectionQue + [p];
          connectionCnt := connectionCnt + 1;
        }
      }
    }

    /** What follows the waiting: it ended by time - then the queue is not looked at again - or with a
        connection in the queue. */
    method GetConnection(timedOut: bool) returns (ok: bool, p: nat)
      requires Valid() && Inv(state) && (timedOut || connectionQue != [])
      modifies this
      ensures ok <==> !timedOut
      ensures Valid() && state == Next(old(state), if ok then Borrow else TimeOut)
      ensures ok ==> p in state.borrowed && p !in old(state).borrowed
      ensures ok ==> old(connectionQue) == [p] + connectionQue
      ensures !ok ==> connectionQue == old(connectionQue)
    {
      if timedOut { return false, 0; }
      p := connectionQue[0];
      assert p in Elements(state.queue);
      connectionQue := connectionQue[1..];
      state := Next(state, Borrow);
      ok := true;
    }

    method ReleaseConnection(p: nat)
      requires Valid() && Enabled(state, Release(p))
      modifies this
      ensures Valid() && state == Next(old(state), Release(p))
      ensures connectionQue == old(connectionQue) + [p]
    {
      connectionQue := connectionQue + [p];
      state := Next(state, Release(p));
    }
  }
}
