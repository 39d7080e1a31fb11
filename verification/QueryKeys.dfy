/** Exactly which parameters survive being written into a query and read back. Keys are written as they are;
    a measure that reading can only lower shows that no other parameters come back by coincidence. */
module QueryKeys {
  import opened Bytes
  import opened PercentEncoding
  import opened QueryString
  import Chunked

  // ---------- A measure that decoding and splitting never raise ----------

  /** Two for each byte and one more for each plus sign, which decoding turns into a space. */
  function Measure(s: bytes): (m: nat)
  {
    if s == [] then 0 else (if s[0] == PLUS then 3 else 2) + Measure(s[1..])
  }

  lemma {:induction false} MeasureConcat(a: bytes, b: bytes)
    ensures Measure(a + b) == Measure(a) + Measure(b)
  {
    if a == [] {
      assert a + b == b;
    } else {
      assert (a + b)[1..] == a[1..] + b;
      MeasureConcat(a[1..], b);
    }
  }

  lemma {:induction false} MeasureBounds(s: bytes)
    ensures 2 * |s| <= Measure(s) <= 3 * |s|
  {
    if s != [] { MeasureBounds(s[1..]); }
  }

  lemma {:induction false} HexDigitsBelow(s: bytes, cnt: nat, val: nat, limit: nat)
    requires val < limit
    ensures HexDigits(s, cnt, val).Some? ==> HexDigits(s, cnt, val).value < limit * Power16(cnt)
    decreases cnt
  {
    if cnt > 0 && HexDigits(s, cnt, val).Some? {
      var next := val * 16 + Chunked.HexValue(s[0]).value;
      HexDigitsBelow(s[1..], cnt - 1, next, limit * 16);
      assert limit * 16 * Power16(cnt - 1) == limit * Power16(cnt) by { PowerStep(limit, cnt); }
    }
  }

  function Power16(n: nat): (r: nat)
  {
    if n == 0 then 1 else 16 * Power16(n - 1)
  }

  lemma PowerStep(a: nat, n: nat)
    requires n > 0
    ensures a * 16 * Power16(n - 1) == a * Power16(n)
  {
  }

  lemma FourHexDigits(s: bytes)
    ensures HexDigits(s, 4, 0).Some? ==> HexDigits(s, 4, 0).value < 0x10000
  {
    hide HexDigits;
    HexDigitsBelow(s, 4, 0, 1);
    assert Power16(4) == 16 * Power16(3) && Power16(3) == 16 * Power16(2) && Power16(2) == 256;
  }

  /** The measure of a text of `n` bytes from its first `k`. */
  lemma MeasureCut(s: bytes, k: nat)
    requires k <= |s|
    ensures Measure(s) == Measure(s[..k]) + Measure(s[k..]) && Measure(s[..k]) >= 2 * k
  {
    MeasureConcat(s[..k], s[k..]);
    MeasureBounds(s[..k]);
    assert s == s[..k] + s[k..];
  }

  /** Decoding never raises the measure, and keeps it only if it changes nothing. */
  lemma {:induction false} DecodeMeasure(s: bytes)
    ensures Measure(DecodeUrl(s, true)) <= Measure(s)
    ensures Measure(DecodeUrl(s, true)) == Measure(s) <==> DecodeUrl(s, true) == s
    decreases |s|
  {
    if s != [] {
      var k := Consumed(s);
      var head := DecodeHead(s);
      DecodeUnfold(s);
      DecodeMeasure(s[k..]);
      hide DecodeUrl, Consumed, DecodeHead;
      MeasureCut(s, k);
      MeasureConcat(head, DecodeUrl(s[k..], true));
      HeadMeasure(s);
      assert s == s[..k] + s[k..];
      if head == s[..k] && DecodeUrl(s[k..], true) == s[k..] {
        assert DecodeUrl(s, true) == s;
      }
    }
  }

  /** How much of the text the first round of decoding takes, and what it makes of it. */
  function Consumed(s: bytes): (k: nat)
    requires s != []
    ensures 0 < k <= |s|
  {
    if s[0] == PERCENT && |s| > 1 then
      if s[1] == LETTER_U then (if HexDigits(s[2..], 4, 0).Some? && |s| >= 6 then 6 else 1)
      else if HexDigits(s[1..], 2, 0).Some? && |s| >= 3 then 3 else 1
    else 1
  }

  function DecodeHead(s: bytes): (r: bytes)
    requires s != []
  {
    if s[0] == PERCENT && |s| > 1 then
      if s[1] == LETTER_U then
        (if HexDigits(s[2..], 4, 0).Some? && |s| >= 6 then Utf8(HexDigits(s[2..], 4, 0).value) else [s[0]])
      else if HexDigits(s[1..], 2, 0).Some? && |s| >= 3 then [HexDigits(s[1..], 2, 0).value % 256] else [s[0]]
    else if s[0] == PLUS then [SPACE]
    else [s[0]]
  }

  lemma DecodeUnfold(s: bytes)
    requires s != []
    ensures DecodeUrl(s, true) == DecodeHead(s) + DecodeUrl(s[Consumed(s)..], true)
  {
    hide HexDigits, Utf8;
  }

  lemma Utf8Short(code: nat)
    requires code < 0x10000
    ensures |Utf8(code)| <= 3
  {
  }

  lemma HeadMeasure(s: bytes)
    requires s != []
    ensures Measure(DecodeHead(s)) <= Measure(s[..Consumed(s)])
    ensures Measure(DecodeHead(s)) == Measure(s[..Consumed(s)]) <==> DecodeHead(s) == s[..Consumed(s)]
  {
    var k, head := Consumed(s), DecodeHead(s);
    MeasureBounds(s[..k]);
    MeasureBounds(head);
    FourHexDigits(if |s| >= 2 then s[2..] else []);
    hide HexDigits, Utf8;
    if k == 6 {
      Utf8Short(HexDigits(s[2..], 4, 0).value);
    } else if k == 1 {
      assert s[..1] == [s[0]];
      assert Measure([s[0]]) == if s[0] == PLUS then 3 else 2;
      assert Measure([SPACE]) == 2;
    }
  }

  function MeasureAll(pieces: seq<bytes>): (m: nat)
  {
    if pieces == [] then 0 else Measure(pieces[0]) + MeasureAll(pieces[1..])
  }

  lemma {:induction false} TrimLeftMeasure(s: bytes)
    ensures Measure(TrimLeft(s)) <= Measure(s)
    ensures Measure(TrimLeft(s)) == Measure(s) ==> TrimLeft(s) == s
  {
    if s != [] && Blank(s[0]) { TrimLeftMeasure(s[1..]); }
  }

  lemma {:induction false} TrimRightMeasure(s: bytes)
    ensures Measure(TrimRight(s)) <= Measure(s)
    ensures Measure(TrimRight(s)) == Measure(s) ==> TrimRight(s) == s
  {
    if s != [] && Blank(s[|s| - 1]) {
      TrimRightMeasure(s[..|s| - 1]);
      MeasureConcat(s[..|s| - 1], s[|s| - 1..]);
      MeasureBounds(s[|s| - 1..]);
      assert s == s[..|s| - 1] + s[|s| - 1..];
    }
  }

  lemma TrimMeasure(s: bytes)
    ensures Measure(Trimmed(s)) <= Measure(s)
    ensures Measure(Trimmed(s)) == Measure(s) ==> Trimmed(s) == s
  {
    TrimLeftMeasure(s);
    TrimRightMeasure(TrimLeft(s));
    hide Measure, TrimLeft, TrimRight;
  }

  /** Each delimiter costs its two. */
  lemma {:induction false} CutMeasure(s: bytes, d: byte)
    requires d != PLUS
    ensures Measure(s) == MeasureAll(Cut(s, d)) + 2 * (|Cut(s, d)| - 1)
  {
    if s != [] {
      CutMeasure(s[1..], d);
      var r := Cut(s[1..], d);
      if s[0] == d {
        assert Cut(s, d)[1..] == r;
      } else {
        assert Cut(s, d)[1..] == r[1..] && Cut(s, d)[0] == [s[0]] + r[0];
        MeasureConcat([s[0]], r[0]);
      }
    } else {
      assert Cut(s, d) == [[]] && Cut(s, d)[1..] == [];
    }
  }

  lemma {:induction false} NonEmptyMeasure(pieces: seq<bytes>)
    ensures MeasureAll(NonEmpty(pieces)) <= MeasureAll(pieces)
  {
    hide Measure, Trimmed;
    if pieces != [] {
      NonEmptyMeasure(pieces[1..]);
      TrimMeasure(pieces[0]);
      if Trimmed(pieces[0]) != [] {
        assert NonEmpty(pieces)[1..] == NonEmpty(pieces[1..]);
      } else {
        assert NonEmpty(pieces) == NonEmpty(pieces[1..]);
      }
    }
  }

  lemma PiecesMeasure(s: bytes, d: byte)
    requires d != PLUS
    ensures MeasureAll(Pieces(s, d)) <= Measure(s)
    ensures MeasureAll(Pieces(s, d)) == Measure(s) ==> |Cut(s, d)| == 1
  {
    CutMeasure(s, d);
    NonEmptyMeasure(Cut(s, d));
    hide Measure, Cut, NonEmpty, MeasureAll;
  }

  lemma {:induction false} CutSingle(s: bytes, d: byte)
    requires |Cut(s, d)| == 1
    ensures d !in s && Cut(s, d) == [s]
  {
    if s != [] {
      CutSingle(s[1..], d);
      assert s == [s[0]] + s[1..];
    }
  }

  lemma {:induction false} FirstLastMeasure(pieces: seq<bytes>)
    requires pieces != []
    ensures Measure(pieces[0]) <= MeasureAll(pieces)
    ensures |pieces| > 1 ==> Measure(pieces[0]) + Measure(pieces[|pieces| - 1]) <= MeasureAll(pieces)
  {
    hide Measure;
    if |pieces| > 1 {
      FirstLastMeasure(pieces[1..]);
      assert pieces[1..][|pieces| - 2] == pieces[|pieces| - 1];
      LastMeasure(pieces[1..]);
    }
  }

  lemma {:induction false} LastMeasure(pieces: seq<bytes>)
    requires pieces != []
    ensures Measure(pieces[|pieces| - 1]) <= MeasureAll(pieces)
  {
    hide Measure;
    if |pieces| > 1 {
      LastMeasure(pieces[1..]);
      assert pieces[1..][|pieces| - 2] == pieces[|pieces| - 1];
    }
  }

  // ---------- What one piece yields ----------

  function PairMeasure(p: (bytes, bytes)): (m: nat)
  {
    Measure(p.0) + Measure(p.1)
  }

  function Yield(kv: bytes): (m: nat)
  {
    if KeyValue(kv).None? then 0 else PairMeasure(KeyValue(kv).value)
  }

  function YieldAll(kvs: seq<bytes>): (m: nat)
  {
    if kvs == [] then 0 else Yield(kvs[0]) + YieldAll(kvs[1..])
  }

  lemma DecodeNone()
    ensures DecodeUrl([], true) == [] && Measure([]) == 0
  {
  }

  lemma YieldBounded(kv: bytes)
    ensures Yield(kv) <= Measure(kv)
  {
    var ps := Pieces(kv, EQUALS);
    PiecesMeasure(kv, EQUALS);
    DecodeNone();
    hide Pieces, DecodeUrl, Measure;
    if ps != [] {
      FirstLastMeasure(ps);
      DecodeMeasure(ps[0]);
      DecodeMeasure(ps[|ps| - 1]);
      hide MeasureAll;
    }
  }

  lemma {:induction false} CutJoin(a: bytes, d: byte, b: bytes)
    ensures Cut(a + [d] + b, d) == Cut(a, d) + Cut(b, d)
  {
    var s := a + [d] + b;
    if a == [] {
      assert s[1..] == b;
    } else {
      assert s[1..] == a[1..] + [d] + b;
      CutJoin(a[1..], d, b);
    }
  }

  lemma {:induction false} NonEmptyConcat(a: seq<bytes>, b: seq<bytes>)
    ensures NonEmpty(a + b) == NonEmpty(a) + NonEmpty(b)
  {
    hide Trimmed;
    if a == [] {
      assert a + b == b;
    } else {
      assert (a + b)[1..] == a[1..] + b;
      NonEmptyConcat(a[1..], b);
    }
  }

  lemma PiecesJoin(a: bytes, d: byte, b: bytes)
    ensures Pieces(a + [d] + b, d) == Pieces(a, d) + Pieces(b, d)
  {
    CutJoin(a, d, b);
    NonEmptyConcat(Cut(a, d), Cut(b, d));
    hide Cut, NonEmpty;
  }

  /** The encoded value has nothing that splitting or trimming would touch. */
  lemma EncodedIsOnePiece(v: bytes)
    ensures var e := EncodeParam(v);
            && AMPERSAND !in e && EQUALS !in e && (e == [] <==> v == []) && (e != [] ==> Trimmed(e) == e)
            && Pieces(e, EQUALS) == (if e == [] then [] else [e])
            && (e != [] ==> !Blank(e[|e| - 1]))
  {
    hide Trimmed, Cut, NonEmpty;
    var e := EncodeParam(v);
    EncodedAlphabet(v);
    CutAtFirst(e, EQUALS, []);
    NonEmptyCons(e, []);
    TrimmedBlank([]);
    hide EncodeParam;
    if e != [] {
      assert e[0] in e && e[|e| - 1] in e;
      TrimmedTight(e);
    }
  }

  lemma {:induction false} TrimLeftPair(k: bytes, e: bytes)
    ensures TrimLeft(k + [EQUALS] + e) == TrimLeft(k) + [EQUALS] + e
  {
    var s := k + [EQUALS] + e;
    if k != [] && Blank(k[0]) {
      assert s[1..] == k[1..] + [EQUALS] + e;
      TrimLeftPair(k[1..], e);
    }
  }

  lemma TrimPair(k: bytes, v: bytes)
    ensures Trimmed(PairText((k, v))) == TrimLeft(k) + [EQUALS] + EncodeParam(v)
  {
    var e := EncodeParam(v);
    EncodedIsOnePiece(v);
    TrimLeftPair(k, e);
    hide TrimLeft, EncodeParam;
    var s := TrimLeft(k) + [EQUALS] + e;
    assert s[|s| - 1] == if e == [] then EQUALS else e[|e| - 1];
    assert TrimRight(s) == s;
  }

  lemma PairPieces(k: bytes, v: bytes)
    ensures Pieces(Trimmed(PairText((k, v))), EQUALS)
         == Pieces(TrimLeft(k), EQUALS) + (if v == [] then [] else [EncodeParam(v)])
  {
    TrimPair(k, v);
    EncodedIsOnePiece(v);
    PiecesJoin(TrimLeft(k), EQUALS, EncodeParam(v));
    hide Pieces, TrimLeft, EncodeParam, Trimmed;
  }

  lemma TightEnds(s: bytes)
    requires s != [] && Trimmed(s) == s
    ensures !Blank(s[0]) && !Blank(s[|s| - 1])
  {
    TrimLeftMeasure(s);
    TrimRightMeasure(TrimLeft(s));
    TrimMeasure(s);
    hide Measure;
    assert TrimLeft(s) == s && TrimRight(s) == s;
    TrimLeftShorter(s);
    TrimRightShorter(s);
  }

  lemma {:induction false} TrimLeftShorter(s: bytes)
    ensures |TrimLeft(s)| <= |s| && (s != [] && Blank(s[0]) ==> |TrimLeft(s)| < |s|)
  {
    if s != [] && Blank(s[0]) { TrimLeftShorter(s[1..]); }
  }

  lemma {:induction false} TrimRightShorter(s: bytes)
    ensures |TrimRight(s)| <= |s| && (s != [] && Blank(s[|s| - 1]) ==> |TrimRight(s)| < |s|)
  {
    if s != [] && Blank(s[|s| - 1]) { TrimRightShorter(s[..|s| - 1]); }
  }

  /** A pair with no ampersand in its key yields at most its own measure, and that much only if the key is
      empty or survives. */
  lemma PairYields(k: bytes, v: bytes)
    requires AMPERSAND !in k
    ensures Yield(Trimmed(PairText((k, v)))) <= PairMeasure((k, v))
    ensures Yield(Trimmed(PairText((k, v)))) == PairMeasure((k, v)) ==>
              (k == [] || KeyOk(k)) && YieldsKey(Trimmed(PairText((k, v))))
  {
    var ps := Pieces(TrimLeft(k), EQUALS);
    PairPieces(k, v);
    TrimLeftMeasure(k);
    PiecesMeasure(TrimLeft(k), EQUALS);
    MeasureBounds(k);
    hide Pieces, Measure, TrimLeft, EncodeParam, Trimmed, PairText, KeyOk, KeyValue;
    PairGives(Trimmed(PairText((k, v))), ps, v);
    if ps != [] && MeasureAll(ps) == Measure(k) { SurvivesWhole(k, ps); }
    hide DecodeUrl, MeasureAll;
  }

  /** The pair read from a piece whose parts are `ps` and then the value. */
  lemma PairGives(kv: bytes, ps: seq<bytes>, v: bytes)
    requires Pieces(kv, EQUALS) == ps + (if v == [] then [] else [EncodeParam(v)])
    ensures Yield(kv) <= MeasureAll(ps) + Measure(v)
    ensures ps == [] && v == [] ==> KeyValue(kv) == None
    ensures ps == [] && v != [] ==> KeyValue(kv) == Some((v, []))
    ensures ps != [] ==> KeyValue(kv).Some? && KeyValue(kv).value.0 == DecodeUrl(ps[0], true)
    ensures |ps| == 1 && Yield(kv) == MeasureAll(ps) + Measure(v) ==> DecodeUrl(ps[0], true) == ps[0]
  {
    DecodeOfEncode(v, true);
    DecodeNone();
    var all := Pieces(kv, EQUALS);
    hide Pieces, DecodeUrl, Measure, EncodeParam;
    if ps == [] {
      assert all == if v == [] then [] else [EncodeParam(v)];
    } else {
      FirstLastMeasure(ps);
      DecodeMeasure(ps[0]);
      DecodeMeasure(ps[|ps| - 1]);
      assert |ps| == 1 ==> ps[1..] == [];
      assert |ps| == 1 ==> MeasureAll(ps) == Measure(ps[0]);
      hide MeasureAll;
      assert all[0] == ps[0] && all[|all| - 1] == if v == [] then ps[|ps| - 1] else EncodeParam(v);
    }
  }

  lemma SurvivesWhole(k: bytes, ps: seq<bytes>)
    requires AMPERSAND !in k && ps == Pieces(k, EQUALS) != [] && MeasureAll(ps) == Measure(k)
    ensures ps == [k] && k != []
    ensures DecodeUrl(k, true) == k ==> KeyOk(k)
  {
    PiecesMeasure(k, EQUALS);
    CutSingle(k, EQUALS);
    NonEmptyCons(k, []);
    TrimMeasure(k);
    assert [Trimmed(k)][1..] == [];
    assert MeasureAll([Trimmed(k)]) == Measure(Trimmed(k));
    hide Pieces, Measure, DecodeUrl, MeasureAll;
    assert ps == [Trimmed(k)];
    TightEnds(k);
    LiteralExactly(k);
    hide Literal;
  }

  predicate YieldsKey(kv: bytes)
  {
    KeyValue(kv).Some? ==> KeyValue(kv).value.0 != []
  }

  // ---------- What a written query yields ----------

  lemma {:induction false} YieldConcat(a: seq<bytes>, b: seq<bytes>)
    ensures YieldAll(a + b) == YieldAll(a) + YieldAll(b)
  {
    hide Yield;
    if a == [] {
      assert a + b == b;
    } else {
      assert (a + b)[1..] == a[1..] + b;
      YieldConcat(a[1..], b);
    }
  }

  predicate AllYieldKeys(kvs: seq<bytes>)
  {
    forall kv :: kv in kvs ==> YieldsKey(kv)
  }

  /** The pieces of one written pair yield at most its own measure; exactly that only if the key is empty or
      survives. */
  lemma {:induction false} PairTextYields(k: bytes, v: bytes)
    ensures YieldAll(Pieces(PairText((k, v)), AMPERSAND)) <= PairMeasure((k, v))
    ensures YieldAll(Pieces(PairText((k, v)), AMPERSAND)) == PairMeasure((k, v)) ==>
              (k == [] || KeyOk(k)) && AllYieldKeys(Pieces(PairText((k, v)), AMPERSAND))
    decreases |k|
  {
    hide DecodeUrl, Measure, EncodeParam, Trimmed, KeyOk, Yield, YieldsKey;
    var e := EncodeParam(v);
    if AMPERSAND in k {
      var i: nat :| i < |k| && k[i] == AMPERSAND;
      var a, k1 := k[..i], k[i + 1..];
      assert k == a + [AMPERSAND] + k1;
      assert PairText((k, v)) == a + [AMPERSAND] + PairText((k1, v));
      hide PairText;
      PiecesJoin(a, AMPERSAND, PairText((k1, v)));
      PiecesYield(a);
      PairTextYields(k1, v);
      hide Pieces;
      YieldConcat(Pieces(a, AMPERSAND), Pieces(PairText((k1, v)), AMPERSAND));
      MeasureJoin(a, k1);
    } else {
      PairIsOnePiece(k, v);
      hide PairText, Pieces;
      PairYields(k, v);
      OneYield(Trimmed(PairText((k, v))));
    }
  }

  lemma OneYield(kv: bytes)
    ensures YieldAll([kv]) == Yield(kv)
    ensures AllYieldKeys([kv]) == YieldsKey(kv)
  {
    hide Yield, YieldsKey;
    assert [kv][1..] == [];
  }

  lemma MeasureJoin(a: bytes, b: bytes)
    ensures Measure(a + [AMPERSAND] + b) == Measure(a) + 2 + Measure(b)
  {
    MeasureConcat(a + [AMPERSAND], b);
    MeasureConcat(a, [AMPERSAND]);
    assert Measure([AMPERSAND]) == 2;
  }

  lemma PairIsOnePiece(k: bytes, v: bytes)
    requires AMPERSAND !in k
    ensures Pieces(PairText((k, v)), AMPERSAND) == [Trimmed(PairText((k, v)))]
  {
    EncodedIsOnePiece(v);
    TrimPair(k, v);
    hide EncodeParam, Trimmed, TrimLeft;
    CutAtFirst(PairText((k, v)), AMPERSAND, []);
    NonEmptyCons(PairText((k, v)), []);
  }

  /** The pieces of a text yield at most its measure. */
  lemma PiecesYield(s: bytes)
    ensures YieldAll(Pieces(s, AMPERSAND)) <= Measure(s)
  {
    PiecesMeasure(s, AMPERSAND);
    YieldAllBounded(Pieces(s, AMPERSAND));
    hide Pieces, Measure;
  }

  lemma {:induction false} YieldAllBounded(kvs: seq<bytes>)
    ensures YieldAll(kvs) <= MeasureAll(kvs)
  {
    hide Yield, Measure;
    if kvs != [] {
      YieldBounded(kvs[0]);
      YieldAllBounded(kvs[1..]);
    }
  }

  function ParamsMeasure(ps: Params): (m: nat)
  {
    if ps == [] then 0 else PairMeasure(ps[0]) + ParamsMeasure(ps[1..])
  }

  /** Every key of the parameters is empty or survives. */
  predicate KeysEmptyOrOk(ps: Params)
  {
    forall p :: p in ps ==> p.0 == [] || KeyOk(p.0)
  }

  lemma {:induction false} QueryYields(ps: Params)
    ensures YieldAll(Pieces(ToQuery(ps), AMPERSAND)) <= ParamsMeasure(ps)
    ensures YieldAll(Pieces(ToQuery(ps), AMPERSAND)) == ParamsMeasure(ps) ==>
              KeysEmptyOrOk(ps) && AllYieldKeys(Pieces(ToQuery(ps), AMPERSAND))
  {
    hide PairText, Pieces, PairMeasure, KeyOk, YieldsKey, Yield;
    if ps == [] {
      NothingCut();
    } else {
      var p := ps[0];
      PairTextYields(p.0, p.1);
      assert (p.0, p.1) == p;
      if |ps| > 1 {
        QueryYields(ps[1..]);
        PiecesJoin(PairText(p), AMPERSAND, ToQuery(ps[1..]));
        YieldConcat(Pieces(PairText(p), AMPERSAND), Pieces(ToQuery(ps[1..]), AMPERSAND));
      } else {
        assert ps[1..] == [] && ps == [p];
      }
    }
  }

  // ---------- Reading it back ----------

  lemma {:induction false} EmplaceMeasure(ps: Params, key: bytes, val: bytes)
    ensures ParamsMeasure(Emplace(ps, key, val)) == ParamsMeasure(ps) + PairMeasure((key, val))
  {
    hide PairMeasure, Less;
    var r := Emplace(ps, key, val);
    if ps == [] || Less(key, ps[0].0) {
      assert r[1..] == ps;
    } else {
      EmplaceMeasure(ps[1..], key, val);
      assert r[1..] == Emplace(ps[1..], key, val);
    }
  }

  lemma {:induction false} EmplaceMembers(ps: Params, key: bytes, val: bytes)
    ensures forall p :: p in Emplace(ps, key, val) ==> p in ps || p == (key, val)
  {
    hide Less;
    if ps != [] && !Less(key, ps[0].0) { EmplaceMembers(ps[1..], key, val); }
  }

  predicate NoEmptyKey(ps: Params)
  {
    forall p :: p in ps ==> p.0 != []
  }

  lemma {:induction false} ParseMeasure(kvs: seq<bytes>, cache: set<bytes>, params: Params)
    ensures ParamsMeasure(ParsePieces(kvs, cache, params)) <= ParamsMeasure(params) + YieldAll(kvs)
    ensures AllYieldKeys(kvs) && NoEmptyKey(params) ==> NoEmptyKey(ParsePieces(kvs, cache, params))
    decreases |kvs|
  {
    hide KeyValue, PairMeasure, Emplace;
    if kvs != [] {
      var kv, rest := kvs[0], kvs[1..];
      if kv in cache {
        ParseMeasure(rest, cache, params);
      } else {
        var p := KeyValue(kv);
        assert AllYieldKeys(kvs) ==> YieldsKey(kv) && AllYieldKeys(rest);
        if p.Some? {
          EmplaceMeasure(params, p.value.0, p.value.1);
          EmplaceMembers(params, p.value.0, p.value.1);
        }
        ParseMeasure(rest, cache + {kv}, if p.None? then params else Emplace(params, p.value.0, p.value.1));
      }
    }
  }

  /** What comes back unchanged had nothing but keys that survive. */
  lemma ComesBackOnlyOk(ps: Params)
    requires ParseQuery(ToQuery(ps), []) == ps
    ensures forall p :: p in ps ==> KeyOk(p.0)
  {
    hide Pieces, ToQuery, KeyOk, YieldsKey, PairMeasure, Yield;
    var kvs := Pieces(ToQuery(ps), AMPERSAND);
    QueryYields(ps);
    ParseMeasure(kvs, {}, []);
  }

  /** Parameters survive being written and read back if and only if no pair is there twice and every key is
      not empty, has no ampersand or equals sign, no blank at its ends, no plus sign and no whole escape. */
  lemma QueryRoundTripExactly(ps: Params)
    requires Sorted(ps)
    ensures ParseQuery(ToQuery(ps), []) == ps <==> Distinct(ps) && forall p :: p in ps ==> KeyOk(p.0)
  {
    hide ParseQuery, ToQuery, KeyOk, Sorted, Distinct;
    if ParseQuery(ToQuery(ps), []) == ps { ComesBackOnlyOk(ps); }
    if forall p :: p in ps ==> KeyOk(p.0) { QueryRoundTrip(ps); }
  }

  lemma OnePairExactly(p: (bytes, bytes))
    ensures ParseQuery(ToQuery([p]), []) == [p] <==> KeyOk(p.0)
  {
    hide ParseQuery, ToQuery, KeyOk;
    QueryRoundTripExactly([p]);
  }
}
