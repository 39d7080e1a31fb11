/** The sessions of all clients while turns run at the same time: each loads its client's history once, saves
    once if it is answered, and any number of other loads and saves lie between. */
module Sessions {
  import opened Bytes
  import opened AgentWorkflows

  datatype Opened = Opened(client: string, history: seq<Message>)

  datatype State = State(store: Store, loaded: map<nat, Opened>)

  datatype Event =
    | Load(turn: nat, client: string)
    | Save(turn: nat, question: string, answer: string, victims: set<string>)
    | GiveUp(turn: nat)      // the turn ends without an answer

  /** A turn number opens one turn at a time; an event of a turn that is not open does nothing. */
  function Next(system: string, s: State, e: Event): (t: State)
  {
    match e
    case Load(n, c) =>
      if n in s.loaded then s else s.(loaded := s.loaded[n := Opened(c, Loaded(s.store, system, c))])
    case Save(n, q, a, victims) =>
      if n !in s.loaded then s
      else
        var o := s.loaded[n];
        State(Stored(s.store, o.client, Saved(o.history, q, a), victims), s.loaded - {n})
    case GiveUp(n) => s.(loaded := s.loaded - {n})
  }

  /** After the events of `run`, from an empty store. */
  function After(system: string, run: seq<Event>): (s: State)
  {
    if run == [] then State(map[], map[]) else Next(system, After(system, run[..|run| - 1]), run[|run| - 1])
  }

  // ---------- What the store stands for ----------

  datatype Seen = Seen(client: string, pairs: Pairs)

  /** The exchanges that the client's entry stands for: those seen at its load by the turn that saved last,
      and that turn's own - whether or not the entry was evicted in between. */
  function Kept(run: seq<Event>, c: string): (r: Option<Pairs>)
    decreases |run|, 1
  {
    if run == [] then None
    else
      var before, e := run[..|run| - 1], run[|run| - 1];
      if e.Save? && SeenBy(before, e.turn).Some? then
        var o := SeenBy(before, e.turn).value;
        if o.client == c then Some(o.pairs + [(e.question, e.answer)])
        else if c in e.victims then None else Kept(before, c)
      else Kept(before, c)
  }

  function KeptPairs(run: seq<Event>, c: string): (r: Pairs)
    decreases |run|, 2
  {
    if Kept(run, c).Some? then Kept(run, c).value else []
  }

  /** What an open turn saw at its load. */
  function SeenBy(run: seq<Event>, n: nat): (r: Option<Seen>)
    decreases |run|, 0
  {
    if run == [] then None
    else
      var before, e := run[..|run| - 1], run[|run| - 1];
      if e.turn != n then SeenBy(before, n)
      else if e.Load? then
        if SeenBy(before, n).Some? then SeenBy(before, n) else Some(Seen(e.client, KeptPairs(before, e.client)))
      else None
  }

  ghost predicate Stands(system: string, run: seq<Event>)
  {
    var s := After(system, run);
    && (forall c :: c in s.store <==> Kept(run, c).Some?)
    && (forall c :: c in s.store ==> s.store[c] == History(system, Kept(run, c).value))
    && (forall n: nat :: n in s.loaded <==> SeenBy(run, n).Some?)
    && (forall n: nat :: n in s.loaded ==>
          s.loaded[n] == Opened(SeenBy(run, n).value.client, History(system, SeenBy(run, n).value.pairs)))
  }

  lemma NothingKept(system: string)
    ensures History(system, []) == [System(system)]
  {
  }

  /** In every interleaving the store holds, for each client, the system prompt and the last nine of the
      exchanges its entry stands for. */
  lemma {:induction false} StoreHolds(system: string, run: seq<Event>)
    ensures Stands(system, run)
  {
    if run != [] {
      StoreHolds(system, run[..|run| - 1]);
      EntriesStand(system, run);
      OpenTurnsStand(system, run);
    }
  }

  lemma EntriesStand(system: string, run: seq<Event>)
    requires run != [] && Stands(system, run[..|run| - 1])
    ensures var s := After(system, run);
            forall c :: (c in s.store <==> Kept(run, c).Some?) &&
                        (c in s.store ==> s.store[c] == History(system, Kept(run, c).value))
  {
    hide History, Saved, Loaded;
    var before, e := run[..|run| - 1], run[|run| - 1];
    if e.Save? && SeenBy(before, e.turn).Some? {
      SavedSlides(system, SeenBy(before, e.turn).value.pairs, e.question, e.answer);
    }
  }

  lemma OpenTurnsStand(system: string, run: seq<Event>)
    requires run != [] && Stands(system, run[..|run| - 1])
    ensures var s := After(system, run);
            forall n: nat :: (n in s.loaded <==> SeenBy(run, n).Some?) &&
              (n in s.loaded ==>
                 s.loaded[n] == Opened(SeenBy(run, n).value.client, History(system, SeenBy(run, n).value.pairs)))
  {
    hide History, Saved, Stored;
    NothingKept(system);
  }

  // ---------- When no answered turn is forgotten ----------

  /** All answered turns of the client, in the order in which they were saved. */
  function Answers(run: seq<Event>, c: string): (r: Pairs)
  {
    if run == [] then []
    else
      var before, e := run[..|run| - 1], run[|run| - 1];
      if SavesFor(before, e, c) then Answers(before, c) + [(e.question, e.answer)] else Answers(before, c)
  }

  /** `e`, coming after `before`, saves an answered turn of the client. */
  predicate SavesFor(before: seq<Event>, e: Event, c: string)
  {
    e.Save? && SeenBy(before, e.turn).Some? && SeenBy(before, e.turn).value.client == c
  }

  /** Where in the run an open turn was loaded. */
  function LoadIndex(run: seq<Event>, n: nat): (l: nat)
    requires SeenBy(run, n).Some?
    ensures l < |run|
  {
    var before, e := run[..|run| - 1], run[|run| - 1];
    if e.turn == n && SeenBy(before, n).None? then |run| - 1 else LoadIndex(before, n)
  }

  lemma {:induction false} SeenAtLoad(run: seq<Event>, n: nat)
    requires SeenBy(run, n).Some?
    ensures var l := LoadIndex(run, n);
            SeenBy(run, n).value.pairs == KeptPairs(run[..l], SeenBy(run, n).value.client)
  {
    var last := |run| - 1;
    var before, e := run[..last], run[last];
    if e.turn == n && SeenBy(before, n).None? {
    } else {
      SeenAtLoad(before, n);
      assert before[..LoadIndex(before, n)] == run[..LoadIndex(before, n)];
    }
  }

  /** The turn about to save loaded after the client's last save, and found the client's memory there if there
      was any to find. */
  predicate Undisturbed(run: seq<Event>, n: nat, c: string)
    requires SeenBy(run, n).Some?
  {
    var l := LoadIndex(run, n);
    |Answers(run[..l], c)| == |Answers(run, c)| && (Kept(run[..l], c).Some? || Answers(run[..l], c) == [])
  }

  predicate AllUndisturbed(run: seq<Event>, c: string)
  {
    forall k :: 0 <= k < |run| && SavesFor(run[..k], run[k], c) ==> Undisturbed(run[..k], run[k].turn, c)
  }

  /** The entry stands for every answered turn of the client. */
  predicate RemembersAll(run: seq<Event>, c: string)
  {
    KeptPairs(run, c) == Answers(run, c)
  }

  lemma UndisturbedBefore(run: seq<Event>, k: nat, c: string)
    requires k <= |run| && AllUndisturbed(run, c)
    ensures AllUndisturbed(run[..k], c)
  {
    forall i | 0 <= i < k && SavesFor(run[..k][..i], run[..k][i], c)
      ensures Undisturbed(run[..k][..i], run[..k][i].turn, c)
    {
      assert run[..k][..i] == run[..i];
    }
  }

  lemma {:induction false} AnswersGrow(run: seq<Event>, k: nat, c: string)
    requires k <= |run|
    ensures Answers(run[..k], c) <= Answers(run, c)
  {
    hide SavesFor;
    if k < |run| {
      AnswersGrow(run[..|run| - 1], k, c);
      assert run[..|run| - 1][..k] == run[..k];
    } else {
      assert run[..k] == run;
    }
  }

  /** With every save undisturbed, an entry that is there stands for everything. */
  lemma {:induction false} UndisturbedRemembers(run: seq<Event>, c: string)
    requires AllUndisturbed(run, c) && Kept(run, c).Some?
    ensures RemembersAll(run, c)
    decreases |run|
  {
    var last := |run| - 1;
    var before, e := run[..last], run[last];
    UndisturbedBefore(run, last, c);
    if SavesFor(before, e, c) {
      assert Undisturbed(before, e.turn, c);
      var l := LoadIndex(before, e.turn);
      SeenAtLoad(before, e.turn);
      assert before[..l] == run[..l];
      UndisturbedBefore(run, l, c);
      if Kept(run[..l], c).Some? { UndisturbedRemembers(run[..l], c); }
      AnswersGrow(before, l, c);
    } else {
      UndisturbedRemembers(before, c);
    }
  }

  /** An entry stands for no more than was answered, and a turn has seen no more than was by then. */
  lemma {:induction false} KeptBounded(run: seq<Event>, c: string)
    ensures |KeptPairs(run, c)| <= |Answers(run, c)|
    decreases |run|
  {
    if run != [] {
      var last := |run| - 1;
      var before, e := run[..last], run[last];
      KeptBounded(before, c);
      if SavesFor(before, e, c) {
        var l := LoadIndex(before, e.turn);
        SeenAtLoad(before, e.turn);
        KeptBounded(before[..l], c);
        AnswersGrow(before, l, c);
      }
    }
  }

  /** A disturbed save is never made good. */
  lemma {:induction false} DisturbedForgets(run: seq<Event>, k: nat, c: string)
    requires k < |run| && SavesFor(run[..k], run[k], c) && !Undisturbed(run[..k], run[k].turn, c)
    ensures |KeptPairs(run, c)| < |Answers(run, c)|
    decreases |run|
  {
    var last := |run| - 1;
    var before, e := run[..last], run[last];
    if k == last {
      SaveFallsShort(before, e, c, LoadIndex(before, e.turn));
    } else {
      assert before[..k] == run[..k];
      DisturbedForgets(before, k, c);
      if SavesFor(before, e, c) {
        var l := LoadIndex(before, e.turn);
        SeenAtLoad(before, e.turn);
        if l > k {
          assert before[..l][..k] == run[..k];
          DisturbedForgets(before[..l], k, c);
          AnswersGrow(before, l, c);
        } else {
          KeptBounded(before[..l], c);
          LoadedEarlier(before, l, k, c);
        }
      }
    }
  }

  lemma LoadedEarlier(run: seq<Event>, l: nat, k: nat, c: string)
    requires l <= k < |run| && SavesFor(run[..k], run[k], c)
    ensures |Answers(run[..l], c)| < |Answers(run, c)|
  {
    hide SavesFor;
    AnswersGrow(run[..k], l, c);
    assert run[..k][..l] == run[..l];
    AnswersGrow(run, k + 1, c);
    assert run[..k + 1][..k] == run[..k];
  }

  lemma SaveFallsShort(before: seq<Event>, e: Event, c: string, l: nat)
    requires SavesFor(before, e, c) && l == LoadIndex(before, e.turn) && !Undisturbed(before, e.turn, c)
    ensures |SeenBy(before, e.turn).value.pairs| < |Answers(before, c)|
  {
    SeenAtLoad(before, e.turn);
    KeptBounded(before[..l], c);
    AnswersGrow(before, l, c);
  }

  /** No answered turn of the client is forgotten, in any interleaving, if and only if every one of its saves
      was undisturbed and its entry was not evicted after the last. */
  lemma NothingForgottenExactly(run: seq<Event>, c: string)
    ensures RemembersAll(run, c) <==> AllUndisturbed(run, c) && (Kept(run, c).Some? || Answers(run, c) == [])
  {
    if AllUndisturbed(run, c) {
      if Kept(run, c).Some? { UndisturbedRemembers(run, c); }
      hide AllUndisturbed;
      KeptNonEmpty(run, c);
    } else {
      var k :| 0 <= k < |run| && SavesFor(run[..k], run[k], c) && !Undisturbed(run[..k], run[k].turn, c);
      DisturbedForgets(run, k, c);
    }
  }

  lemma {:induction false} KeptNonEmpty(run: seq<Event>, c: string)
    ensures Kept(run, c).Some? ==> KeptPairs(run, c) != []
    decreases |run|
  {
    if run != [] { KeptNonEmpty(run[..|run| - 1], c); }
  }

  // ---------- When the stored window is right ----------

  /** A history shows which exchanges it was made of. */
  lemma {:induction false} TalkInjective(a: Pairs, b: Pairs)
    ensures Talk(a) == Talk(b) <==> a == b
    decreases |a|
  {
    if |a| == |b| > 0 {
      var n := |a| - 1;
      TalkInjective(a[..n], b[..n]);
      TalkLast(a);
      TalkLast(b);
      hide Talk;
      assert a == a[..n] + [a[n]] && b == b[..n] + [b[n]];
    }
  }

  lemma TalkLast(a: Pairs)
    requires a != []
    ensures var n := |a| - 1;
            && Talk(a)[..2 * n] == Talk(a[..n])
            && Talk(a)[2 * n] == User(a[n].0) && Talk(a)[2 * n + 1] == Assistant(a[n].1)
  {
    var n := |a| - 1;
    assert Talk(a) == Talk(a[..n]) + [User(a[n].0), Assistant(a[n].1)];
    hide Talk;
  }

  /** The store holds the last nine of all the client's answered exchanges if and only if those are also the
      last nine that its entry stands for. */
  lemma WindowExactly(system: string, run: seq<Event>, c: string)
    requires c in After(system, run).store
    ensures After(system, run).store[c] == History(system, Answers(run, c))
       <==> LastNine(KeptPairs(run, c)) == LastNine(Answers(run, c))
  {
    StoreHolds(system, run);
    TalkInjective(LastNine(KeptPairs(run, c)), LastNine(Answers(run, c)));
    var a, b := Talk(LastNine(KeptPairs(run, c))), Talk(LastNine(Answers(run, c)));
    hide Talk, LastNine;
    assert ([System(system)] + a)[1..] == a && ([System(system)] + b)[1..] == b;
  }

  /** The last `n` of the client's saves were undisturbed. */
  predicate LastUndisturbed(run: seq<Event>, c: string, n: nat)
  {
    forall k :: 0 <= k < |run| && SavesFor(run[..k], run[k], c) && |Answers(run[..k], c)| + n >= |Answers(run, c)| ==>
      Undisturbed(run[..k], run[k].turn, c)
  }

  function LastOf(pairs: Pairs, n: nat): (r: Pairs)
  {
    if |pairs| > n then pairs[|pairs| - n..] else pairs
  }

  lemma LastOfMore(a: Pairs, b: Pairs, p: (string, string), n: nat)
    requires LastOf(a, n) == LastOf(b, n)
    ensures LastOf(a + [p], n + 1) == LastOf(b + [p], n + 1)
  {
    assert LastOf(a + [p], n + 1) == LastOf(a, n) + [p];
    assert LastOf(b + [p], n + 1) == LastOf(b, n) + [p];
  }

  /** A turn forgotten before the last `n` saves no longer shows in the last `n` exchanges. */
  lemma {:induction false} LastSavesRemembered(run: seq<Event>, c: string, n: nat)
    requires LastUndisturbed(run, c, n) && Kept(run, c).Some?
    ensures LastOf(KeptPairs(run, c), n) == LastOf(Answers(run, c), n)
    decreases |run|
  {
    hide LastOf, LastUndisturbed, Undisturbed, LoadIndex;
    var last := |run| - 1;
    var before, e := run[..last], run[last];
    if SavesFor(before, e, c) {
      var l := LoadIndex(before, e.turn);
      SeenAtLoad(before, e.turn);
      if n > 0 {
        LastIsUndisturbed(run, c, n);
        LastUndisturbedBefore(run, n, l, c, n - 1);
        if Kept(run[..l], c).Some? { LastSavesRemembered(run[..l], c, n - 1); }
        LastOfMore(KeptPairs(run[..l], c), Answers(before, c), (e.question, e.answer), n - 1);
      } else {
        NoneOf(KeptPairs(run, c));
        NoneOf(Answers(run, c));
      }
    } else {
      LastUndisturbedBefore(run, n, last, c, n);
      LastSavesRemembered(before, c, n);
    }
  }

  lemma NoneOf(pairs: Pairs)
    ensures LastOf(pairs, 0) == []
  {
  }

  lemma LastIsUndisturbed(run: seq<Event>, c: string, n: nat)
    requires n > 0 && LastUndisturbed(run, c, n) && run != [] && SavesFor(run[..|run| - 1], run[|run| - 1], c)
    ensures var l := LoadIndex(run[..|run| - 1], run[|run| - 1].turn);
            && l < |run| && run[..|run| - 1][..l] == run[..l] && Answers(run[..l], c) == Answers(run[..|run| - 1], c)
            && (Kept(run[..l], c).Some? || Answers(run[..l], c) == [])
  {
    hide Kept, SeenBy, LoadIndex;
    var last := |run| - 1;
    assert Undisturbed(run[..last], run[last].turn, c);
    var l := LoadIndex(run[..last], run[last].turn);
    assert run[..last][..l] == run[..l];
    AnswersGrow(run[..last], l, c);
  }

  lemma LastUndisturbedBefore(run: seq<Event>, m: nat, l: nat, c: string, n: nat)
    requires l <= |run| && LastUndisturbed(run, c, m) && n + |Answers(run, c)| <= m + |Answers(run[..l], c)|
    ensures LastUndisturbed(run[..l], c, n)
  {
    hide Kept, SeenBy, Answers, Undisturbed;
    forall k | 0 <= k < l && SavesFor(run[..l][..k], run[..l][k], c) &&
               |Answers(run[..l][..k], c)| + n >= |Answers(run[..l], c)|
      ensures Undisturbed(run[..l][..k], run[..l][k].turn, c)
    {
      assert run[..l][..k] == run[..k];
    }
  }

  /** With the last nine saves undisturbed, whatever happened before, the store holds the system prompt and the
      last nine of all the client's answered exchanges. */
  lemma SessionWindow(system: string, run: seq<Event>, c: string)
    requires LastUndisturbed(run, c, 9) && c in After(system, run).store
    ensures After(system, run).store[c] == History(system, Answers(run, c))
  {
    StoreHolds(system, run);
    LastSavesRemembered(run, c, 9);
    hide LastUndisturbed, Talk;
  }

  /** No save of another client drops this client's entry. */
  predicate NeverEvicted(run: seq<Event>, c: string)
  {
    forall e :: e in run && e.Save? ==> c !in e.victims
  }

  lemma {:induction false} NeverEvictedKeeps(run: seq<Event>, c: string)
    requires NeverEvicted(run, c)
    ensures Kept(run, c).Some? <==> Answers(run, c) != []
    decreases |run|
  {
    if run != [] {
      var before := run[..|run| - 1];
      assert run[|run| - 1] in run;
      forall e | e in before ensures e in run { }
      NeverEvictedKeeps(before, c);
    }
  }

  /** Each of its turns loads after the one before it has saved. */
  predicate OneAtATime(run: seq<Event>, c: string)
  {
    forall k :: 0 <= k < |run| && SavesFor(run[..k], run[k], c) ==>
      |Answers(run[..LoadIndex(run[..k], run[k].turn)], c)| == |Answers(run[..k], c)|
  }

  /** Turn after turn and without eviction, whatever other clients do: after n answered turns the store holds
      the system prompt and the last min(n, 9) exchanges. */
  lemma SequentialWindow(system: string, run: seq<Event>, c: string)
    requires OneAtATime(run, c) && NeverEvicted(run, c) && Answers(run, c) != []
    ensures c in After(system, run).store
    ensures After(system, run).store[c] == History(system, Answers(run, c))
  {
    forall k | 0 <= k < |run| && SavesFor(run[..k], run[k], c) ensures Undisturbed(run[..k], run[k].turn, c) {
      var l := LoadIndex(run[..k], run[k].turn);
      assert run[..k][..l] == run[..l];
      forall e | e in run[..l] ensures e in run { }
      NeverEvictedKeeps(run[..l], c);
    }
    NeverEvictedKeeps(run, c);
    StoreHolds(system, run);
    SessionWindow(system, run, c);
  }

  /** Two turns that both load before either saves: the first to save is forgotten. */
  lemma OverlapForgetsATurn(c: string, q1: string, a1: string, q2: string, a2: string)
    ensures var run := [Load(1, c), Load(2, c), Save(1, q1, a1, {}), Save(2, q2, a2, {})];
            Kept(run, c) == Some([(q2, a2)]) && Answers(run, c) == [(q1, a1), (q2, a2)]
  {
    var run1: seq<Event> := [Load(1, c)];
    var run2 := [Load(1, c), Load(2, c)];
    var run3 := [Load(1, c), Load(2, c), Save(1, q1, a1, {})];
    var run := [Load(1, c), Load(2, c), Save(1, q1, a1, {}), Save(2, q2, a2, {})];
    assert run1[..0] == [] && run2[..1] == run1 && run3[..2] == run2 && run[..3] == run3;
    assert SeenBy(run1, 1) == Some(Seen(c, [])) && Kept(run1, c) == None && KeptPairs(run1, c) == [];
    assert SeenBy(run1, 2) == None && Answers(run1, c) == [];
    assert SeenBy(run2, 1) == Some(Seen(c, [])) && SeenBy(run2, 2) == Some(Seen(c, []));
    assert SeenBy(run3, 2) == Some(Seen(c, [])) && Answers(run2, c) == [];
    assert [] + [(q1, a1)] == [(q1, a1)] && [] + [(q2, a2)] == [(q2, a2)];
  }

  /** An entry that another client's save evicts while the turn is under way comes back with its save. */
  lemma EvictedEntryRevives(run: seq<Event>, n: nat, m: nat, c: string, q: string, a: string,
                            oq: string, oa: string, victims: set<string>)
    requires SeenBy(run, n).Some? && SeenBy(run, n).value.client == c
    requires SeenBy(run, m).Some? && SeenBy(run, m).value.client != c && c in victims
    ensures var evicted := run + [Save(m, oq, oa, victims)];
            var revived := evicted + [Save(n, q, a, {})];
            && Kept(evicted, c) == None
            && Kept(revived, c) == Some(SeenBy(run, n).value.pairs + [(q, a)])
  {
    var evicted := run + [Save(m, oq, oa, victims)];
    assert evicted[..|run|] == run;
    var revived := evicted + [Save(n, q, a, {})];
    assert revived[..|evicted|] == evicted;
  }
}
