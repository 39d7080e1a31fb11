/** Correlating asynchronous responses with their callers: `CallMethod` parks a continuation under a
    fresh id, the poller hands in responses, the scavenger reclaims what waited too long. Every step
    below is one critical section or one atomic operation; threads interleave them freely. */
module Correlation {
  import opened Bytes
  import opened Text

  const NANOS := 1_000_000_000

  /** The request id of the `n`-th call: the 64-bit counter printed in decimal. */
  function Key(n: nat): (k: string)
  {
    "req_" + Decimal(Wrap(n))
  }

  lemma KeyInjective(m: nat, n: nat)
    requires Key(m) == Key(n) && m < TWO_64 && n < TWO_64
    ensures m == n
  {
    assert Key(m)[4..] == Decimal(Wrap(m)) && Key(n)[4..] == Decimal(Wrap(n));
    DecimalInjective(Wrap(m), Wrap(n));
  }

  /** `AsyncRpcContext`. The call number stands for the response object and the closure; `hasDone`
      is false for a null closure; times are nanoseconds of the steady clock. */
  datatype Context = Context(call: nat, hasDone: bool, start: int)

  /** `duration_cast<seconds>` truncates towards zero. */
  function WaitedSeconds(now: int, start: int): (s: int)
  {
    if now >= start then (now - start) / NANOS else -((start - now) / NANOS)
  }

  predicate Expired(now: int, c: Context)
  {
    WaitedSeconds(now, c.start) > 60
  }

  /** The comment promises "more than 60 seconds"; truncation makes it 61 full seconds. */
  lemma ExpiredExactly(now: int, c: Context)
    ensures Expired(now, c) <==> now - c.start >= 61 * NANOS
  {
  }

  /** Where a call that obtained an id has got to; from the map on, with whether it has a closure. */
  datatype Fate =
    | Held                   // has its id, not yet in the map
    | Pending(done: bool)    // in the map
    | Taken(done: bool)      // erased by a response that is still being parsed
    | Answered(done: bool)   // response parsed
    | Dropped(done: bool)    // response did not parse
    | TimedOut(done: bool)   // reclaimed by the scavenger

  /** Unsigned 64-bit arithmetic. */
  function Wrap(x: int): (r: uint64)
  {
    x % TWO_64
  }

  lemma WrapAdd(a: int, b: int)
    ensures Wrap(Wrap(a) + b) == Wrap(a + b)
  {
    var q := a / 0x1_0000_0000_0000_0000;
    assert a % TWO_64 + b == a + b - q * 0x1_0000_0000_0000_0000;
  }

  datatype State = State(
    pending: map<string, Context>,
    uuidGen: uint64,
    gauge: uint64,
    issued: nat,            // ids handed out so far
    fate: map<nat, Fate>,
    uncounted: set<nat>,    // inserted, gauge not yet incremented
    ran: multiset<nat>)     // closures run

  const INITIAL := State(map[], 0, 0, 0, map[], {}, multiset{})

  datatype Event =
    | Issue
    | Insert(call: nat, done: bool, now: int)
    | Count(call: nat)
    | Response(id: string)
    | Finish(call: nat, parses: bool)
    | Sweep(now: int)

  predicate Enabled(s: State, e: Event)
  {
    match e
    case Insert(n, _, _) => n in s.fate && s.fate[n].Held?
    case Count(n) => n in s.uncounted
    case Finish(n, _) => n in s.fate && s.fate[n].Taken?
    case _ => true
  }

  function ExpiredKeys(s: State, now: int): (r: set<string>)
  {
    set k | k in s.pending && Expired(now, s.pending[k])
  }

  function ExpiredCalls(s: State, now: int): (r: set<nat>)
  {
    set k | k in s.pending && Expired(now, s.pending[k]) :: s.pending[k].call
  }

  /** The expired calls that have a closure to run. */
  function ExpiredDone(s: State, now: int): (r: set<nat>)
  {
    set k | k in s.pending && Expired(now, s.pending[k]) && s.pending[k].hasDone :: s.pending[k].call
  }

  function TimeOuts(s: State, now: int): (r: map<nat, Fate>)
  {
    map n | n in ExpiredCalls(s, now) :: TimedOut(n in ExpiredDone(s, now))
  }

  function Next(s: State, e: Event): (r: State)
    requires Enabled(s, e)
  {
    match e
    case Issue =>
      s.(uuidGen := Wrap(s.uuidGen + 1), issued := s.issued + 1, fate := s.fate[s.issued := Held])
    case Insert(n, done, now) =>
      s.(pending := s.pending[Key(n) := Context(n, done, now)], fate := s.fate[n := Pending(done)],
         uncounted := s.uncounted + {n})
    case Count(n) =>
      s.(gauge := Wrap(s.gauge + 1), uncounted := s.uncounted - {n})
    case Response(id) =>
      if id in s.pending then
        s.(pending := s.pending - {id}, gauge := Wrap(s.gauge - 1),
           fate := s.fate[s.pending[id].call := Taken(s.pending[id].hasDone)])
      else s
    case Finish(n, parses) =>
      var done := s.fate[n].done;
      if !parses then s.(fate := s.fate[n := Dropped(done)])
      else s.(fate := s.fate[n := Answered(done)], ran := if done then s.ran + multiset{n} else s.ran)
    case Sweep(now) =>
      s.(pending := s.pending - ExpiredKeys(s, now),
         gauge := Wrap(s.gauge - |ExpiredKeys(s, now)|),
         fate := s.fate + TimeOuts(s, now),
         ran := s.ran + multiset(ExpiredDone(s, now)))
  }

  // ---------- The invariant, in four parts ----------

  /** Ids are handed out in order. */
  ghost predicate IdsInv(s: State)
  {
    s.uuidGen == Wrap(s.issued) && forall n: nat :: n in s.fate <==> n < s.issued
  }

  predicate Parked(s: State, n: nat)
  {
    Key(n) in s.pending && s.pending[Key(n)].call == n
  }

  /** The map holds exactly the pending calls, each under its own key. */
  ghost predicate MapInv(s: State)
  {
    && (forall k :: k in s.pending ==>
          var c := s.pending[k];
          k == Key(c.call) && c.call in s.fate && s.fate[c.call] == Pending(c.hasDone))
    && (forall n :: n in s.fate && s.fate[n].Pending? ==> Parked(s, n))
  }

  /** How often a closure must have run, from the fate of its call. */
  function RunsFor(f: Fate): (r: nat)
  {
    if (f.Answered? || f.TimedOut?) && f.done then 1 else 0
  }

  ghost predicate LogInv(s: State)
  {
    && (forall n :: n in s.fate ==> s.ran[n] == RunsFor(s.fate[n]))
    && (forall n: nat :: n !in s.fate ==> s.ran[n] == 0)
    && (forall n :: n in s.uncounted ==> n in s.fate && !s.fate[n].Held?)
  }

  predicate GaugeInv(s: State)
  {
    s.gauge == Wrap(|s.pending| - |s.uncounted|)
  }

  ghost predicate Inv(s: State)
  {
    IdsInv(s) && MapInv(s) && LogInv(s) && GaugeInv(s)
  }

  lemma PutGrows<K, V>(m: map<K, V>, k: K, v: V)
    requires k !in m
    ensures |m[k := v]| == |m| + 1
  {
    assert m[k := v].Keys == m.Keys + {k};
  }

  lemma MinusShrinks<K, V>(m: map<K, V>, gone: set<K>)
    requires gone <= m.Keys
    ensures |m - gone| == |m| - |gone|
  {
    assert (m - gone).Keys == m.Keys - gone;
  }

  lemma SetGrows(u: set<nat>, n: nat)
    requires n !in u
    ensures |u + {n}| == |u| + 1
  {
  }

  lemma SetShrinks(u: set<nat>, n: nat)
    requires n in u
    ensures |u - {n}| == |u| - 1
  {
  }

  // ---------- Every step keeps the invariant ----------

  /** A change of one fate that is not and does not become pending leaves the map as good as it was. */
  lemma FateKeepsMapInv(s: State, t: State, n: nat, f: Fate)
    requires MapInv(s) && t.pending == s.pending && t.fate == s.fate[n := f]
    requires (n in s.fate ==> !s.fate[n].Pending?) && !f.Pending?
    ensures MapInv(t)
  {
    hide Key;
    forall m | m in t.fate && t.fate[m].Pending? ensures Parked(t, m) { assert Parked(s, m); }
  }

  lemma GaugeStays(s: State, t: State)
    requires GaugeInv(s) && t.gauge == s.gauge
    requires |t.pending| - |t.uncounted| == |s.pending| - |s.uncounted|
    ensures GaugeInv(t)
  {
    hide Wrap;
  }

  lemma WrapMoves(gauge: uint64, a: int, d: int)
    requires gauge == Wrap(a)
    ensures Wrap(gauge + d) == Wrap(a + d)
  {
    WrapAdd(a, d);
    hide Wrap;
  }

  /** The gauge follows the map and the uncounted calls. */
  lemma GaugeMoves(s: State, t: State, d: int)
    requires GaugeInv(s) && t.gauge == Wrap(s.gauge + d)
    requires |t.pending| - |t.uncounted| == |s.pending| - |s.uncounted| + d
    ensures GaugeInv(t)
  {
    WrapMoves(s.gauge, |s.pending| - |s.uncounted|, d);
    hide Wrap;
  }

  lemma IssueFields(s: State)
    ensures var t := Next(s, Issue);
            && t.pending == s.pending && t.gauge == s.gauge && t.uncounted == s.uncounted && t.ran == s.ran
            && t.uuidGen == Wrap(s.uuidGen + 1) && t.issued == s.issued + 1 && t.fate == s.fate[s.issued := Held]
  {
  }

  lemma IssueKeepsInv(s: State)
    requires Inv(s)
    ensures Inv(Next(s, Issue))
  {
    var t := Next(s, Issue);
    IssueFields(s);
    hide Key, Wrap, Next, GaugeInv;
    FateKeepsMapInv(s, t, s.issued, Held);
    GaugeStays(s, t);
    hide MapInv;
    IssueKeepsLogInv(s);
  }

  lemma IssueKeepsLogInv(s: State)
    requires IdsInv(s) && LogInv(s)
    ensures IdsInv(Next(s, Issue)) && LogInv(Next(s, Issue))
  {
    IssueFields(s);
    hide Key, Wrap, Next;
    WrapAdd(s.issued, 1);
  }

  lemma InsertFields(s: State, n: nat, done: bool, now: int)
    requires Enabled(s, Insert(n, done, now))
    ensures var t := Next(s, Insert(n, done, now));
            && t.pending == s.pending[Key(n) := Context(n, done, now)] && t.fate == s.fate[n := Pending(done)]
            && t.gauge == s.gauge && t.uncounted == s.uncounted + {n} && t.ran == s.ran
            && t.uuidGen == s.uuidGen && t.issued == s.issued
  {
  }

  lemma InsertKeepsMapInv(s: State, n: nat, done: bool, now: int)
    requires MapInv(s) && Key(n) !in s.pending && Enabled(s, Insert(n, done, now))
    ensures MapInv(Next(s, Insert(n, done, now)))
  {
    var t := Next(s, Insert(n, done, now));
    InsertFields(s, n, done, now);
    hide Key, Next;
    forall m | m in t.fate && t.fate[m].Pending? ensures Parked(t, m) {
      if m != n { assert Parked(s, m); }
    }
  }

  lemma InsertKeepsGauge(s: State, n: nat, done: bool, now: int)
    requires GaugeInv(s) && n !in s.uncounted && Key(n) !in s.pending && Enabled(s, Insert(n, done, now))
    ensures GaugeInv(Next(s, Insert(n, done, now)))
  {
    InsertFields(s, n, done, now);
    hide Key, Wrap, Next, GaugeInv;
    PutGrows(s.pending, Key(n), Context(n, done, now));
    SetGrows(s.uncounted, n);
    GaugeStays(s, Next(s, Insert(n, done, now)));
  }

  lemma InsertKeepsLogInv(s: State, n: nat, done: bool, now: int)
    requires IdsInv(s) && LogInv(s) && Enabled(s, Insert(n, done, now))
    ensures IdsInv(Next(s, Insert(n, done, now))) && LogInv(Next(s, Insert(n, done, now)))
  {
    InsertFields(s, n, done, now);
    hide Key, Wrap, Next;
  }

  lemma InsertKeepsInv(s: State, n: nat, done: bool, now: int)
    requires Inv(s) && Key(n) !in s.pending && Enabled(s, Insert(n, done, now))
    ensures Inv(Next(s, Insert(n, done, now)))
  {
    InsertKeepsMapInv(s, n, done, now);
    InsertKeepsLogInv(s, n, done, now);
    InsertKeepsGauge(s, n, done, now);
    hide Key, Wrap, MapInv, GaugeInv, IdsInv, LogInv, Next;
  }

  /** A pending call without an entry: no response and no patrol will ever find it. */
  ghost predicate Lost(s: State, m: nat)
  {
    m < s.issued && m in s.fate && s.fate[m].Pending? && forall k :: k in s.pending ==> s.pending[k].call != m
  }

  lemma LostBreaksMap(s: State, m: nat)
    requires Lost(s, m)
    ensures !Parked(s, m)
  {
    hide Key;
  }

  /** Inserting under a key in use overwrites the call that waits there. */
  lemma OverwritingLoses(s: State, n: nat, done: bool, now: int)
    requires IdsInv(s) && MapInv(s) && Key(n) in s.pending && Enabled(s, Insert(n, done, now))
    ensures Lost(Next(s, Insert(n, done, now)), s.pending[Key(n)].call)
  {
    InsertFields(s, n, done, now);
    hide Key, Next, Wrap;
  }

  /** Insertion keeps the accounting exactly when it finds its key free. */
  lemma InsertExactly(s: State, n: nat, done: bool, now: int)
    requires Inv(s) && Enabled(s, Insert(n, done, now))
    ensures Inv(Next(s, Insert(n, done, now))) <==> Key(n) !in s.pending
  {
    hide Key, Next, IdsInv, LogInv, GaugeInv;
    if Key(n) in s.pending {
      OverwritingLoses(s, n, done, now);
      LostBreaksMap(Next(s, Insert(n, done, now)), s.pending[Key(n)].call);
    } else {
      InsertKeepsInv(s, n, done, now);
    }
  }

  lemma CountFields(s: State, n: nat)
    requires n in s.uncounted
    ensures var t := Next(s, Count(n));
            && t.pending == s.pending && t.fate == s.fate && t.ran == s.ran
            && t.gauge == Wrap(s.gauge + 1) && t.uncounted == s.uncounted - {n}
            && t.uuidGen == s.uuidGen && t.issued == s.issued
  {
  }

  lemma CountKeepsInv(s: State, n: nat)
    requires Inv(s) && n in s.uncounted
    ensures Inv(Next(s, Count(n)))
  {
    var t := Next(s, Count(n));
    CountFields(s, n);
    hide Key, Wrap, Next, GaugeInv;
    SetShrinks(s.uncounted, n);
    GaugeMoves(s, t, 1);
    SameMapInv(s, t);
    hide MapInv;
  }

  lemma SameMapInv(s: State, t: State)
    requires MapInv(s) && t.pending == s.pending && t.fate == s.fate
    ensures MapInv(t)
  {
    hide Key;
    forall m | m in t.fate && t.fate[m].Pending? ensures Parked(t, m) { assert Parked(s, m); }
  }

  lemma ResponseFields(s: State, id: string)
    requires id in s.pending
    ensures var t := Next(s, Response(id));
            && t.pending == s.pending - {id} && t.gauge == Wrap(s.gauge - 1)
            && t.fate == s.fate[s.pending[id].call := Taken(s.pending[id].hasDone)]
            && t.uncounted == s.uncounted && t.ran == s.ran && t.uuidGen == s.uuidGen && t.issued == s.issued
  {
  }

  lemma ResponseKeepsMapInv(s: State, id: string)
    requires MapInv(s) && id in s.pending
    ensures MapInv(Next(s, Response(id)))
  {
    var t := Next(s, Response(id));
    ResponseFields(s, id);
    hide Key, Next;
    var n := s.pending[id].call;
    assert id == Key(n);
    forall m | m in t.fate && t.fate[m].Pending? ensures Parked(t, m) { assert Parked(s, m); }
  }

  lemma ResponseKeepsLogInv(s: State, id: string)
    requires IdsInv(s) && MapInv(s) && LogInv(s) && id in s.pending
    ensures IdsInv(Next(s, Response(id))) && LogInv(Next(s, Response(id)))
  {
    ResponseFields(s, id);
    hide Key, Wrap, Next;
    var c := s.pending[id];
    assert c.call in s.fate && s.fate[c.call] == Pending(c.hasDone);
    hide MapInv;
  }

  lemma ResponseKeepsInv(s: State, id: string)
    requires Inv(s)
    ensures Inv(Next(s, Response(id)))
  {
    if id in s.pending {
      ResponseKeepsMapInv(s, id);
      ResponseKeepsLogInv(s, id);
      ResponseFields(s, id);
      hide Key, Wrap, GaugeInv, IdsInv, MapInv, LogInv, Next;
      MinusShrinks(s.pending, {id});
      GaugeMoves(s, Next(s, Response(id)), -1);
    }
  }

  lemma FinishFields(s: State, n: nat, parses: bool)
    requires Enabled(s, Finish(n, parses))
    ensures var t := Next(s, Finish(n, parses));
            && t.pending == s.pending && t.gauge == s.gauge && t.uncounted == s.uncounted
            && t.uuidGen == s.uuidGen && t.issued == s.issued
            && t.fate == s.fate[n := if parses then Answered(s.fate[n].done) else Dropped(s.fate[n].done)]
            && t.ran == if parses && s.fate[n].done then s.ran + multiset{n} else s.ran
  {
  }

  lemma FinishKeepsLogInv(s: State, n: nat, parses: bool)
    requires IdsInv(s) && LogInv(s) && Enabled(s, Finish(n, parses))
    ensures IdsInv(Next(s, Finish(n, parses))) && LogInv(Next(s, Finish(n, parses)))
  {
    FinishFields(s, n, parses);
    hide Key, Wrap, Next;
  }

  lemma FinishKeepsInv(s: State, n: nat, parses: bool)
    requires Inv(s) && Enabled(s, Finish(n, parses))
    ensures Inv(Next(s, Finish(n, parses)))
  {
    var t := Next(s, Finish(n, parses));
    FinishKeepsLogInv(s, n, parses);
    FinishFields(s, n, parses);
    hide Key, Wrap, LogInv, IdsInv, Next, GaugeInv;
    FateKeepsMapInv(s, t, n, if parses then Answered(s.fate[n].done) else Dropped(s.fate[n].done));
    GaugeStays(s, t);
    hide MapInv;
  }

  /** Which calls a sweep reclaims, by their fate. */
  lemma ExpiredAre(s: State, now: int, n: nat)
    requires MapInv(s)
    ensures n in ExpiredCalls(s, now) <==> n in s.fate && s.fate[n].Pending? && Key(n) in ExpiredKeys(s, now)
    ensures n in ExpiredDone(s, now) <==> n in ExpiredCalls(s, now) && s.fate[n] == Pending(true)
  {
    hide Key, Expired;
    forall k | k in s.pending && s.pending[k].call == n
      ensures n in s.fate && s.fate[n] == Pending(s.pending[k].hasDone) && k == Key(n)
    {
    }
    assert n in s.fate && s.fate[n].Pending? ==> Parked(s, n);
  }

  lemma SweepKeepsMapInv(s: State, now: int)
    requires MapInv(s)
    ensures MapInv(Next(s, Sweep(now)))
  {
    hide Key, Expired, ExpiredCalls, ExpiredDone;
    var t := Next(s, Sweep(now));
    forall k | k in t.pending ensures t.pending[k].call !in ExpiredCalls(s, now) {
      ExpiredAre(s, now, s.pending[k].call);
    }
    forall m | m in t.fate && t.fate[m].Pending? ensures Parked(t, m) {
      ExpiredAre(s, now, m);
      assert Parked(s, m);
    }
  }

  lemma SweepKeepsLogInv(s: State, now: int)
    requires MapInv(s) && LogInv(s)
    ensures LogInv(Next(s, Sweep(now)))
  {
    hide Key, ExpiredKeys, ExpiredCalls, ExpiredDone;
    var t := Next(s, Sweep(now));
    forall n: nat ensures
        if n in t.fate then t.ran[n] == RunsFor(t.fate[n]) else t.ran[n] == 0 {
      ExpiredAre(s, now, n);
    }
    forall n | n in t.uncounted ensures n in t.fate && !t.fate[n].Held? {
      ExpiredAre(s, now, n);
    }
  }

  lemma SweepFields(s: State, now: int)
    ensures Next(s, Sweep(now)).pending == s.pending - ExpiredKeys(s, now)
    ensures Next(s, Sweep(now)).gauge == Wrap(s.gauge - |ExpiredKeys(s, now)|)
    ensures Next(s, Sweep(now)).uncounted == s.uncounted
  {
  }

  lemma SweepShrinks(s: State, now: int)
    ensures |Next(s, Sweep(now)).pending| == |s.pending| - |ExpiredKeys(s, now)|
  {
    SweepFields(s, now);
    hide Next;
    assert ExpiredKeys(s, now) <= s.pending.Keys;
    hide ExpiredKeys;
    MinusShrinks(s.pending, ExpiredKeys(s, now));
  }

  lemma SweepLowersGauge(s: State, now: int)
    ensures var t := Next(s, Sweep(now));
            t.gauge == Wrap(s.gauge - (|s.pending| - |t.pending|)) && t.uncounted == s.uncounted
  {
    SweepFields(s, now);
    SweepShrinks(s, now);
    hide Wrap, Next, ExpiredKeys;
  }

  lemma GaugeFollows(s: State, t: State)
    requires GaugeInv(s) && t.uncounted == s.uncounted
    requires t.gauge == Wrap(s.gauge - (|s.pending| - |t.pending|))
    ensures GaugeInv(t)
  {
    GaugeMoves(s, t, |t.pending| - |s.pending|);
  }

  lemma SweepKeepsGauge(s: State, now: int)
    requires GaugeInv(s)
    ensures GaugeInv(Next(s, Sweep(now)))
  {
    hide Next, Wrap, GaugeInv;
    SweepLowersGauge(s, now);
    GaugeFollows(s, Next(s, Sweep(now)));
  }

  lemma SweepKeepsIdsInv(s: State, now: int)
    requires IdsInv(s) && MapInv(s)
    ensures IdsInv(Next(s, Sweep(now)))
  {
    hide Key, Wrap, ExpiredKeys, ExpiredCalls, ExpiredDone;
    forall n: nat ensures n in Next(s, Sweep(now)).fate <==> n in s.fate { ExpiredAre(s, now, n); }
  }

  lemma SweepKeepsInv(s: State, now: int)
    requires Inv(s)
    ensures Inv(Next(s, Sweep(now)))
  {
    hide Key, Wrap, MapInv, LogInv, GaugeInv, IdsInv, Next;
    SweepKeepsIdsInv(s, now);
    SweepKeepsMapInv(s, now);
    SweepKeepsLogInv(s, now);
    SweepKeepsGauge(s, now);
  }

  /** Whether an insertion, if `e` is one, finds its key free. */
  predicate KeyFree(s: State, e: Event)
  {
    e.Insert? ==> Key(e.call) !in s.pending
  }

  lemma StepKeepsInv(s: State, e: Event)
    requires Inv(s) && Enabled(s, e) && KeyFree(s, e)
    ensures Inv(Next(s, e))
  {
    hide Inv, Key;
    match e
    case Issue => IssueKeepsInv(s);
    case Insert(n, done, now) => InsertKeepsInv(s, n, done, now);
    case Count(n) => CountKeepsInv(s, n);
    case Response(id) => ResponseKeepsInv(s, id);
    case Finish(n, parses) => FinishKeepsInv(s, n, parses);
    case Sweep(now) => SweepKeepsInv(s, now);
  }

  /** Once lost, always lost. */
  lemma LostStaysLost(s: State, e: Event, m: nat)
    requires Lost(s, m) && Enabled(s, e)
    ensures Lost(Next(s, e), m)
  {
    hide Key, Wrap;
    match e
    case Insert(n, done, now) =>
      InsertFields(s, n, done, now);
      hide Next;
    case Sweep(now) =>
      assert m !in ExpiredCalls(s, now);
      hide ExpiredCalls, ExpiredDone, ExpiredKeys;
      var t := Next(s, e);
      assert t.pending == s.pending - ExpiredKeys(s, now) && t.fate == s.fate + TimeOuts(s, now);
      assert m in t.fate && t.fate[m] == s.fate[m];
    case _ =>
  }

  // ---------- Whole runs ----------

  /** `after` is reached from `before` by the events of `run`, in that order. */
  ghost predicate Reaches(before: State, run: seq<Event>, after: State)
    decreases |run|
  {
    if run == [] then after == before
    else Enabled(before, run[0]) && Reaches(Next(before, run[0]), run[1..], after)
  }

  lemma {:induction false} IssuedGrows(before: State, run: seq<Event>, after: State)
    requires Reaches(before, run, after)
    ensures before.issued <= after.issued
    decreases |run|
  {
    if run != [] { IssuedGrows(Next(before, run[0]), run[1..], after); }
  }

  /** Every insertion of the run finds its key free. */
  ghost predicate KeysFree(before: State, run: seq<Event>)
    decreases |run|
  {
    run == [] || (Enabled(before, run[0]) && KeyFree(before, run[0]) && KeysFree(Next(before, run[0]), run[1..]))
  }

  lemma {:induction false} RunKeepsInv(before: State, run: seq<Event>, after: State)
    requires Inv(before) && Reaches(before, run, after) && KeysFree(before, run)
    ensures Inv(after)
    decreases |run|
  {
    if run != [] {
      hide Inv, Next, KeyFree, Enabled;
      StepKeepsInv(before, run[0]);
      RunKeepsInv(Next(before, run[0]), run[1..], after);
    }
  }

  lemma {:induction false} LostForever(before: State, run: seq<Event>, after: State, m: nat)
    requires Lost(before, m) && Reaches(before, run, after)
    ensures Lost(after, m)
    decreases |run|
  {
    if run != [] {
      hide Lost, Next, Enabled;
      LostStaysLost(before, run[0], m);
      LostForever(Next(before, run[0]), run[1..], after, m);
    }
  }

  /** A run with an overwriting insertion has lost a call at its end. */
  lemma {:induction false} OverwritingRunLoses(before: State, run: seq<Event>, after: State)
    requires Inv(before) && Reaches(before, run, after) && !KeysFree(before, run)
    ensures exists m :: Lost(after, m)
    decreases |run|
  {
    hide Lost, Next, IdsInv, LogInv, GaugeInv, MapInv;
    var e, mid := run[0], Next(before, run[0]);
    if KeyFree(before, e) {
      StepKeepsInv(before, e);
      OverwritingRunLoses(mid, run[1..], after);
    } else {
      OverwritingLoses(before, e.call, e.done, e.now);
      LostForever(mid, run[1..], after, before.pending[Key(e.call)].call);
    }
  }

  lemma FreshKeyIsFree(s: State, n: nat)
    requires IdsInv(s) && MapInv(s) && s.issued <= TWO_64 && n in s.fate && !s.fate[n].Pending?
    ensures Key(n) !in s.pending
  {
    hide Key;
    if Key(n) in s.pending { KeyInjective(s.pending[Key(n)].call, n); }
  }

  /** In a run of at most 2^64 calls every key is free. */
  lemma {:induction false} FewCallsKeysFree(before: State, run: seq<Event>, after: State)
    requires Inv(before) && Reaches(before, run, after) && after.issued <= TWO_64
    ensures KeysFree(before, run)
    decreases |run|
  {
    if run != [] {
      hide Next, Key, LogInv, GaugeInv;
      var e, mid := run[0], Next(before, run[0]);
      IssuedGrows(before, run, after);
      IssuedGrows(mid, run[1..], after);
      if e.Insert? { FreshKeyIsFree(before, e.call); }
      hide Inv;
      StepKeepsInv(before, e);
      FewCallsKeysFree(mid, run[1..], after);
    }
  }

  lemma InitialInv()
    ensures Inv(INITIAL)
  {
    assert IdsInv(INITIAL) && MapInv(INITIAL) && LogInv(INITIAL);
  }

  /** Exact accounting: every id handed out has one fate; the map holds exactly the calls whose fate is to
      be pending; each closure has run exactly once if its call was answered or timed out and never
      otherwise; the gauge is right up to calls that have inserted but not yet counted themselves. */
  ghost predicate Accounted(s: State)
  {
    && (forall n: nat :: n in s.fate <==> n < s.issued)
    && (forall n :: n in s.fate ==> (s.fate[n].Pending? <==> Parked(s, n)))
    && (forall k :: k in s.pending ==> k == Key(s.pending[k].call) && s.pending[k].call < s.issued)
    && (forall n: nat :: s.ran[n] <= 1)
    && (forall n: nat :: s.ran[n] == 1 <==>
          n in s.fate && (s.fate[n] == Answered(true) || s.fate[n] == TimedOut(true)))
    && s.gauge == Wrap(|s.pending| - |s.uncounted|)
  }

  lemma InvAccounts(s: State)
    requires Inv(s)
    ensures Accounted(s)
  {
    hide Key, Wrap;
    forall n | n in s.fate && Parked(s, n) ensures s.fate[n].Pending? {
      assert s.pending[Key(n)].call == n;
    }
    forall n: nat ensures s.ran[n] == if n in s.fate then RunsFor(s.fate[n]) else 0 {
    }
  }

  /** In every run of calls, responses and patrols the accounting is exact at the end if and only if every
      insertion found its key free. */
  lemma Accounting(run: seq<Event>, s: State)
    requires Reaches(INITIAL, run, s)
    ensures Accounted(s) <==> KeysFree(INITIAL, run)
  {
    InitialInv();
    hide Inv, Reaches, KeysFree, Parked;
    if KeysFree(INITIAL, run) {
      RunKeepsInv(INITIAL, run, s);
      InvAccounts(s);
    } else {
      OverwritingRunLoses(INITIAL, run, s);
      var m :| Lost(s, m);
      LostBreaksMap(s, m);
    }
  }

  /** Decimal ids see to that for as many calls as the counter has values. */
  lemma AccountingUpTo2To64(run: seq<Event>, s: State)
    requires Reaches(INITIAL, run, s) && s.issued <= TWO_64
    ensures Accounted(s)
  {
    InitialInv();
    hide Inv, Reaches, KeysFree, Accounted;
    FewCallsKeysFree(INITIAL, run, s);
    Accounting(run, s);
  }

  /** A response takes its call out of the map and lowers the gauge at once; once its bytes are parsed the closure
      runs, one time, or - if they do not parse or there is none - nothing does. */
  lemma DeliveredExactly(s: State, n: nat, parses: bool)
    requires Inv(s) && n in s.fate && s.fate[n].Pending?
    ensures (var id := "req_" + Decimal(n % 0x1_0000_0000_0000_0000);
             var t := Next(s, Response(id));
             && id in s.pending && t.pending == s.pending - {id} && t.ran == s.ran
             && t.gauge == (s.gauge - 1) % 0x1_0000_0000_0000_0000
             && Enabled(t, Finish(n, parses))
             && Next(t, Finish(n, parses)).pending == t.pending && Next(t, Finish(n, parses)).gauge == t.gauge
             && s.ran[n] == 0
             && Next(t, Finish(n, parses)).ran == if parses && s.fate[n].done then s.ran + multiset{n} else s.ran)
  {
    assert Parked(s, n);
    ResponseFields(s, Key(n));
    FinishFields(Next(s, Response(Key(n))), n, parses);
    hide Next, IdsInv, GaugeInv;
    assert s.pending[Key(n)].hasDone == s.fate[n].done;
    hide MapInv, LogInv;
    assert Key(n) == "req_" + Decimal(n % 0x1_0000_0000_0000_0000);
  }

  /** A call is reclaimed by a sweep that comes 61 full seconds or more after its insertion, and then its closure, if
      there is one, runs once. */
  lemma ReclaimedExactly(s: State, n: nat, done: bool, start: int, now: int)
    requires Inv(s) && n in s.fate && s.fate[n] == Held && Key(n) !in s.pending
    ensures (var t := Next(s, Insert(n, done, start));
             var u := Next(t, Sweep(now));
             && Key(n) in t.pending && n in u.fate
             && (if now - start >= 61_000_000_000
                 then Key(n) !in u.pending && u.fate[n] == TimedOut(done) && u.ran[n] == s.ran[n] + (if done then 1 else 0)
                 else Key(n) in u.pending && u.fate[n] == Pending(done) && u.ran[n] == s.ran[n]))
  {
    var t := Next(s, Insert(n, done, start));
    InsertKeepsInv(s, n, done, start);
    InsertFields(s, n, done, start);
    hide Next, Key, Inv, SweptFate, RunsFor, Enabled;
    SweepAt(t, now, n);
    SweepKeepsInv(t, now);
    RanByFate(s, n);
    RanByFate(Next(t, Sweep(now)), n);
    SweptPending(done);
  }

  lemma SweepAt(t: State, now: int, n: nat)
    requires Inv(t) && n in t.fate && Key(n) in t.pending
    ensures var u := Next(t, Sweep(now));
            && (Key(n) in u.pending <==> now - t.pending[Key(n)].start < 61_000_000_000)
            && n in u.fate && u.fate[n] == SweptFate(t.fate[n], Key(n) in u.pending)
  {
    SweepExact(t, now);
    hide Next, Key, Inv, SweptFate;
  }

  lemma SweptPending(done: bool)
    ensures SweptFate(Pending(done), true) == Pending(done) && SweptFate(Pending(done), false) == TimedOut(done)
    ensures RunsFor(Held) == 0 && RunsFor(Pending(done)) == 0 && RunsFor(TimedOut(done)) == if done then 1 else 0
  {
  }

  lemma RanByFate(s: State, n: nat)
    requires Inv(s) && n in s.fate
    ensures s.ran[n] == RunsFor(s.fate[n])
  {
    hide IdsInv, MapInv, GaugeInv;
  }

  predicate Settled(f: Fate)
  {
    f.Answered? || f.Dropped? || f.TimedOut?
  }

  /** A response for an id that no pending call has does nothing at all. */
  lemma UnknownResponseIgnored(s: State, id: string)
    requires Inv(s)
    requires forall n :: n in s.fate && s.fate[n].Pending? ==> id != Key(n)
    ensures Next(s, Response(id)) == s
  {
    hide Key, Wrap, LogInv, GaugeInv, IdsInv;
    forall k | k in s.pending ensures k != id { assert s.fate[s.pending[k].call].Pending?; }
  }

  /** So a second response, or one that comes after the time-out, is ignored. */
  lemma LateResponseIgnored(s: State, n: nat)
    requires Inv(s) && s.issued <= TWO_64 && n in s.fate && (s.fate[n].Taken? || Settled(s.fate[n]))
    ensures Next(s, Response(Key(n))) == s
  {
    FreshKeyIsFree(s, n);
    hide Key, Wrap, Inv;
  }

  lemma SettledStep(s: State, e: Event, n: nat)
    requires Inv(s) && Enabled(s, e) && n in s.fate && Settled(s.fate[n])
    ensures n in Next(s, e).fate && Next(s, e).fate[n] == s.fate[n]
  {
    hide Key, ExpiredCalls, ExpiredDone;
    if e.Sweep? { ExpiredAre(s, e.now, n); }
    if e.Response? && e.id in s.pending { assert s.fate[s.pending[e.id].call].Pending?; }
  }

  /** A settled call stays as it is for the rest of the run. */
  lemma {:induction false} SettledForever(before: State, run: seq<Event>, after: State, n: nat)
    requires Inv(before) && Reaches(before, run, after) && KeysFree(before, run)
    requires n in before.fate && Settled(before.fate[n])
    ensures n in after.fate && after.fate[n] == before.fate[n]
    decreases |run|
  {
    if run != [] {
      hide Inv, Next, KeyFree, Enabled, Settled;
      SettledStep(before, run[0], n);
      StepKeepsInv(before, run[0]);
      SettledForever(Next(before, run[0]), run[1..], after, n);
    }
  }

  /** One sweep removes exactly the entries that waited 61 s or more and leaves the others alone. */
  lemma SweepExact(s: State, now: int)
    requires Inv(s)
    ensures var t := Next(s, Sweep(now));
            && (forall k :: k in t.pending <==> k in s.pending && now - s.pending[k].start < 61 * NANOS)
            && (forall k :: k in t.pending ==> t.pending[k] == s.pending[k])
            && t.gauge == Wrap(s.gauge - (|s.pending| - |t.pending|))
            && (forall n :: n in s.fate ==> n in t.fate && t.fate[n] == SweptFate(s.fate[n], Key(n) in t.pending))
  {
    hide Key, Wrap, Inv, IdsInv, MapInv, LogInv, GaugeInv, Next, ExpiredKeys, Enabled, SweptFate;
    SweepLowersGauge(s, now);
    SweepRemoves(s, now);
    assert MapInv(s) by { InvParts(s); }
    SweepSettles(s, now);
  }

  function SweptFate(f: Fate, kept: bool): (r: Fate)
  {
    if f.Pending? && !kept then TimedOut(f.done) else f
  }

  lemma InvParts(s: State)
    requires Inv(s)
    ensures IdsInv(s) && MapInv(s) && LogInv(s) && GaugeInv(s)
  {
  }

  lemma SweepRemoves(s: State, now: int)
    ensures var t := Next(s, Sweep(now));
            && (forall k :: k in t.pending <==> k in s.pending && now - s.pending[k].start < 61 * NANOS)
            && (forall k :: k in t.pending ==> t.pending[k] == s.pending[k])
  {
    hide Wrap, ExpiredCalls, ExpiredDone, Expired;
    forall k | k in s.pending ensures k in ExpiredKeys(s, now) <==> now - s.pending[k].start >= 61 * NANOS {
      ExpiredExactly(now, s.pending[k]);
    }
    assert Next(s, Sweep(now)).pending == s.pending - ExpiredKeys(s, now);
    hide ExpiredKeys, Next;
  }

  lemma SweepSettles(s: State, now: int)
    requires MapInv(s)
    ensures forall n :: n in s.fate ==>
      var t := Next(s, Sweep(now));
      n in t.fate && t.fate[n] == SweptFate(s.fate[n], Key(n) in t.pending)
  {
    var t := Next(s, Sweep(now));
    hide Key, Wrap, Expired, ExpiredKeys, ExpiredCalls, ExpiredDone;
    forall n | n in s.fate ensures n in t.fate &&
        t.fate[n] == SweptFate(s.fate[n], Key(n) in t.pending) {
      ExpiredAre(s, now, n);
      if s.fate[n].Pending? { assert Parked(s, n); }
    }
  }

  function AfterIssues(s: State, n: nat): (t: State)
    decreases n
  {
    if n == 0 then s else AfterIssues(Next(s, Issue), n - 1)
  }

  function Issues(n: nat): (run: seq<Event>)
  {
    if n == 0 then [] else [Issue] + Issues(n - 1)
  }

  lemma {:induction false} IssuesReach(s: State, n: nat)
    ensures Reaches(s, Issues(n), AfterIssues(s, n))
    ensures AfterIssues(s, n).issued == s.issued + n && AfterIssues(s, n).pending == s.pending
    ensures n > 0 ==> s.issued + n - 1 in AfterIssues(s, n).fate && AfterIssues(s, n).fate[s.issued + n - 1] == Held
    decreases n
  {
    if n > 0 {
      IssueFields(s);
      IssuesReach(Next(s, Issue), n - 1);
      assert Issues(n)[1..] == Issues(n - 1);
      hide Next;
    }
  }

  lemma {:induction false} ReachesTransitive(s: State, a: seq<Event>, t: State, b: seq<Event>, u: State)
    requires Reaches(s, a, t) && Reaches(t, b, u)
    ensures Reaches(s, a + b, u)
    decreases |a|
  {
    hide Next, Enabled;
    if a == [] {
      assert a + b == b;
    } else {
      assert (a + b)[1..] == a[1..] + b;
      ReachesTransitive(Next(s, a[0]), a[1..], t, b, u);
    }
  }

  /** The state in which the call after 2^64 others gets its id while the first call still waits. */
  function FullCircle(): (s: State)
  {
    AfterIssues(Next(Next(INITIAL, Issue), Insert(0, true, 0)), TWO_64)
  }

  lemma FullCircleReached()
    ensures Reaches(INITIAL, [Issue, Insert(0, true, 0)] + Issues(TWO_64), FullCircle())
    ensures Key(0) in FullCircle().pending && Enabled(FullCircle(), Insert(TWO_64, true, 0))
  {
    FirstCallWaits();
    var s2 := Next(Next(INITIAL, Issue), Insert(0, true, 0));
    hide Next, Key, AfterIssues, Issues, Reaches;
    IssuesReach(s2, TWO_64);
    ReachesTransitive(INITIAL, [Issue, Insert(0, true, 0)], s2, Issues(TWO_64), AfterIssues(s2, TWO_64));
  }

  lemma FirstCallWaits()
    ensures Enabled(Next(INITIAL, Issue), Insert(0, true, 0))
    ensures var s := Next(Next(INITIAL, Issue), Insert(0, true, 0));
            && Reaches(INITIAL, [Issue, Insert(0, true, 0)], s) && s.issued == 1 && Key(0) in s.pending
  {
    IssueFields(INITIAL);
    hide Key;
    var s1 := Next(INITIAL, Issue);
    InsertFields(s1, 0, true, 0);
    var s2 := Next(s1, Insert(0, true, 0));
    var run := [Issue, Insert(0, true, 0)];
    assert run[1..] == [Insert(0, true, 0)] && run[1..][1..] == [];
    hide Next;
    assert Reaches(s2, run[1..][1..], s2);
    assert Reaches(s1, run[1..], s2);
  }

  lemma {:induction false} KeysFreeLater(before: State, a: seq<Event>, mid: State, b: seq<Event>)
    requires Reaches(before, a, mid) && KeysFree(before, a + b)
    ensures KeysFree(mid, b)
    decreases |a|
  {
    hide Next, Enabled, KeyFree;
    if a == [] {
      assert a + b == b;
    } else {
      assert (a + b)[1..] == a[1..] + b;
      KeysFreeLater(Next(before, a[0]), a[1..], mid, b);
    }
  }

  /** That much and no more: there is a run in which one call more overwrites the entry of the first. */
  lemma WrapAroundLosesACall()
    ensures exists run, s :: Reaches(INITIAL, run, s) && s.issued == TWO_64 + 1 && !Accounted(s)
  {
    FullCircleReached();
    FullCircleIssued();
    assert Key(TWO_64) == Key(0);
    hide FullCircle, Issues, Key, Accounted;
    var mid, run := FullCircle(), [Issue, Insert(0, true, 0)] + Issues(TWO_64);
    var last := [Insert(TWO_64, true, 0)];
    var s := Next(mid, last[0]);
    InsertFields(mid, TWO_64, true, 0);
    assert last[1..] == [] && !KeyFree(mid, last[0]);
    hide Next, Enabled, KeyFree;
    assert Reaches(s, last[1..], s);
    assert Reaches(mid, last, s) && !KeysFree(mid, last);
    ReachesTransitive(INITIAL, run, mid, last, s);
    if KeysFree(INITIAL, run + last) { KeysFreeLater(INITIAL, run, mid, last); }
    Accounting(run + last, s);
  }

  lemma FullCircleIssued()
    ensures FullCircle().issued == TWO_64 + 1
  {
    var s1 := Next(INITIAL, Issue);
    IssueFields(INITIAL);
    InsertFields(s1, 0, true, 0);
    hide Next, Key, AfterIssues, Issues;
    IssuesReach(Next(s1, Insert(0, true, 0)), TWO_64);
  }

  // ---------- The channel object ----------

  /** Each entry sits under its own call's key. */
  predicate Keyed(pending: map<string, Context>)
  {
    forall k :: k in pending ==> k == Key(pending[k].call)
  }

  class MprpcChannel {
    var pendingMap: map<string, Context>
    var uuidGen: uint64
    var pendingCount: uint64
    ghost var state: State

    ghost predicate Valid()
      reads this
    {
      state.pending == pendingMap && state.uuidGen == uuidGen && state.gauge == pendingCount && Keyed(pendingMap)
    }

    constructor ()
      ensures Valid() && state == INITIAL
    {
      pendingMap, uuidGen, pendingCount := map[], 0, 0;
      state := INITIAL;
    }

    /** `uuid_gen_.fetch_add(1)` and the id made from it. */
    method NewRequestId() returns (reqId: string)
      requires Valid() && uuidGen == Wrap(state.issued)
      modifies this
      ensures Valid() && state == Next(old(state), Issue) && reqId == Key(old(state.issued))
    {
      reqId := "req_" + Decimal(uuidGen);
      uuidGen := Wrap(uuidGen + 1);
      state := Next(state, Issue);
    }

    method Park(reqId: string, n: nat, done: bool, now: int)
      requires Valid() && reqId == Key(n) && Enabled(state, Insert(n, done, now))
      modifies this
      ensures Valid() && state == Next(old(state), Insert(n, done, now))
    {
      hide Key;
      pendingMap := pendingMap[reqId := Context(n, done, now)];
      state := Next(state, Insert(n, done, now));
    }

    method CountUp(ghost n: nat)
      requires Valid() && Enabled(state, Count(n))
      modifies this
      ensures Valid() && state == Next(old(state), Count(n))
    {
      pendingCount := Wrap(pendingCount + 1);
      state := Next(state, Count(n));
    }

    /** `parses` is what `ParseFromString` says of the response bytes. */
    method HandleRpcResponse(id: string, parses: bool) returns (ran: bool)
      requires Valid()
      modifies this
      ensures Valid()
      ensures id !in old(pendingMap) ==> state == old(state) && !ran
      ensures id in old(pendingMap) ==>
                var c := old(pendingMap)[id];
                && Enabled(Next(old(state), Response(id)), Finish(c.call, parses))
                && state == Next(Next(old(state), Response(id)), Finish(c.call, parses))
                && ran == (parses && c.hasDone)
                && pendingMap == old(pendingMap) - {id} && pendingCount == (old(pendingCount) - 1) % 0x1_0000_0000_0000_0000
    {
      hide Key;
      if id !in pendingMap { return false; }
      var ctx := pendingMap[id];
      pendingMap := pendingMap - {id};
      pendingCount := Wrap(pendingCount - 1);
      state := Next(state, Response(id));
      state := Next(state, Finish(ctx.call, parses));
      if !parses { return false; }
      return ctx.hasDone;
    }

    /** One patrol: the map is walked in whatever order it iterates, running closures and erasing on the
        way; `run` is what it ran. */
    method Patrol(now: int) returns (ghost run: multiset<nat>)
      requires Valid()
      modifies this
      ensures Valid() && state == Next(old(state), Sweep(now))
      ensures state.ran == old(state).ran + run
    {
      ghost var p := pendingMap;
      run := multiset{};
      ghost var seen: set<string> := {};
      var unseen := pendingMap.Keys;
      hide Swept, Key, Keyed, Wrap, Next;
      SweptNone(p, now, pendingCount);
      while unseen != {}
        invariant seen + unseen == p.Keys && seen !! unseen
        invariant Swept(p, now, seen, old(pendingCount), pendingMap, pendingCount, run)
        invariant uuidGen == old(uuidGen) && state == old(state)
        decreases unseen
      {
        var k :| k in unseen;
        SweptOne(p, now, seen, old(pendingCount), pendingMap, pendingCount, run, k);
        var ctx := pendingMap[k];
        if WaitedSeconds(now, ctx.start) > 60 {
          if ctx.hasDone { run := run + multiset{ctx.call}; }
          pendingMap := pendingMap - {k};
          pendingCount := Wrap(pendingCount - 1);
        }
        seen := seen + {k};
        unseen := unseen - {k};
      }
      assert seen == p.Keys;
      SweptAll(state, now, pendingMap, pendingCount, run);
      state := Next(state, Sweep(now));
    }
  }

  /** The entries `seen` have been dealt with: the map and the gauge are what is left, `run` the closures run. */
  predicate Swept(p: map<string, Context>, now: int, seen: set<string>, gauge: uint64,
                  left: map<string, Context>, count: uint64, run: multiset<nat>)
  {
    && Keyed(p)
    && left == p - ExpiredIn(p, now, seen)
    && count == Wrap(gauge - |ExpiredIn(p, now, seen)|)
    && run == multiset(RanIn(p, now, seen))
  }

  function ExpiredIn(p: map<string, Context>, now: int, seen: set<string>): (r: set<string>)
  {
    set k | k in seen && k in p && Expired(now, p[k])
  }

  /** The closures to run for the expired entries among those seen. */
  function RanIn(p: map<string, Context>, now: int, seen: set<string>): (r: set<nat>)
  {
    set k | k in seen && k in p && Expired(now, p[k]) && p[k].hasDone :: p[k].call
  }

  lemma SeeOne(p: map<string, Context>, now: int, seen: set<string>, k: string)
    requires Keyed(p) && k in p && k !in seen
    ensures ExpiredIn(p, now, seen + {k}) == ExpiredIn(p, now, seen) + if Expired(now, p[k]) then {k} else {}
    ensures k !in ExpiredIn(p, now, seen)
    ensures RanIn(p, now, seen + {k})
         == RanIn(p, now, seen) + if Expired(now, p[k]) && p[k].hasDone then {p[k].call} else {}
    ensures p[k].call !in RanIn(p, now, seen)
  {
    hide Key, Expired, Wrap;
    forall j | j in seen && j in p ensures p[j].call != p[k].call {
      assert j == Key(p[j].call) && k == Key(p[k].call);
    }
  }

  lemma WrapSmall(x: uint64)
    ensures Wrap(x) == x
  {
  }

  lemma SweptNone(p: map<string, Context>, now: int, gauge: uint64)
    requires Keyed(p)
    ensures Swept(p, now, {}, gauge, p, gauge, multiset{})
  {
    hide Key, Wrap;
    WrapSmall(gauge);
    assert ExpiredIn(p, now, {}) == {} && RanIn(p, now, {}) == {};
    assert p - {} == p;
  }

  /** What the loop body does to one entry. */
  lemma SweptOne(p: map<string, Context>, now: int, seen: set<string>, gauge: uint64,
                 left: map<string, Context>, count: uint64, run: multiset<nat>, k: string)
    requires Swept(p, now, seen, gauge, left, count, run) && k in p && k !in seen
    ensures k in left && left[k] == p[k]
    ensures WaitedSeconds(now, p[k].start) > 60 ==>
              Swept(p, now, seen + {k}, gauge, left - {k}, Wrap(count - 1),
                    if p[k].hasDone then run + multiset{p[k].call} else run)
    ensures WaitedSeconds(now, p[k].start) <= 60 ==> Swept(p, now, seen + {k}, gauge, left, count, run)
  {
    hide Key, Wrap, Keyed, ExpiredIn, RanIn, WaitedSeconds;
    SeeOne(p, now, seen, k);
    WrapAdd(gauge - |ExpiredIn(p, now, seen)|, -1);
  }

  lemma SweptAll(s: State, now: int, left: map<string, Context>, count: uint64, run: multiset<nat>)
    requires Swept(s.pending, now, s.pending.Keys, s.gauge, left, count, run)
    ensures Next(s, Sweep(now)).pending == left && Next(s, Sweep(now)).gauge == count
    ensures Next(s, Sweep(now)).ran == s.ran + run && Next(s, Sweep(now)).uuidGen == s.uuidGen
    ensures Keyed(left)
  {
    hide Key, Wrap, Expired, ExpiredCalls;
    assert ExpiredIn(s.pending, now, s.pending.Keys) == ExpiredKeys(s, now);
    assert RanIn(s.pending, now, s.pending.Keys) == ExpiredDone(s, now);
  }
}
