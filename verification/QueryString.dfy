/** Query strings: `trim`, `split`, `params_to_query_str` and `parse_query_text`. */
module QueryString {
  import opened Bytes
  import opened PercentEncoding

  const AMPERSAND: byte := 38
  const EQUALS: byte := 61
  const TAB: byte := 9

  predicate Blank(c: byte)
  {
    c == SPACE || c == TAB
  }

  // ---------- trim and split ----------

  function TrimLeft(s: bytes): (r: bytes)
  {
    if s != [] && Blank(s[0]) then TrimLeft(s[1..]) else s
  }

  function TrimRight(s: bytes): (r: bytes)
  {
    if s != [] && Blank(s[|s| - 1]) then TrimRight(s[..|s| - 1]) else s
  }

  function Trimmed(s: bytes): (r: bytes)
  {
    TrimRight(TrimLeft(s))
  }

  lemma {:induction false} TrimLeftIs(s: bytes, k: nat)
    requires k <= |s| && (forall j :: 0 <= j < k ==> Blank(s[j])) && (k < |s| ==> !Blank(s[k]))
    ensures TrimLeft(s) == s[k..]
  {
    if k > 0 {
      TrimLeftIs(s[1..], k - 1);
      assert s[1..][k - 1..] == s[k..];
    }
  }

  lemma {:induction false} TrimRightIs(s: bytes, k: nat)
    requires k <= |s| && (forall j :: k <= j < |s| ==> Blank(s[j])) && (k > 0 ==> !Blank(s[k - 1]))
    ensures TrimRight(s) == s[..k]
    decreases |s| - k
  {
    if k < |s| {
      TrimRightIs(s[..|s| - 1], k);
      assert s[..|s| - 1][..k] == s[..k];
    } else {
      assert s[..k] == s;
    }
  }

  lemma TrimmedIs(s: bytes, l: nat, r: nat)
    requires l < r <= |s| && !Blank(s[l]) && !Blank(s[r - 1])
    requires forall j :: 0 <= j < l ==> Blank(s[j])
    requires forall j :: r <= j < |s| ==> Blank(s[j])
    ensures Trimmed(s) == s[l..r]
  {
    TrimLeftIs(s, l);
    TrimRightIs(s[l..], r - l);
    assert s[l..][..r - l] == s[l..r];
  }

  lemma TrimmedBlank(s: bytes)
    requires forall j :: 0 <= j < |s| ==> Blank(s[j])
    ensures Trimmed(s) == []
  {
    TrimLeftIs(s, |s|);
  }

  lemma TrimmedTight(s: bytes)
    requires s != [] && !Blank(s[0]) && !Blank(s[|s| - 1])
    ensures Trimmed(s) == s
  {
    TrimmedIs(s, 0, |s|);
  }

  /** The pieces between the delimiters, as they are. */
  function Cut(s: bytes, d: byte): (r: seq<bytes>)
    ensures r != []
  {
    if s == [] then [[]]
    else if s[0] == d then [[]] + Cut(s[1..], d)
    else
      var r := Cut(s[1..], d);
      [[s[0]] + r[0]] + r[1..]
  }

  lemma {:induction false} CutAtFirst(a: bytes, d: byte, rest: bytes)
    requires d !in a
    ensures Cut(a, d) == [a]
    ensures Cut(a + [d] + rest, d) == [a] + Cut(rest, d)
  {
    var s := a + [d] + rest;
    if a == [] {
      assert s[1..] == rest;
    } else {
      assert a == [a[0]] + a[1..];
      CutAtFirst(a[1..], d, rest);
      assert s[1..] == a[1..] + [d] + rest;
    }
  }

  /** `split` hands on the trimmed pieces that are not empty. */
  function NonEmpty(pieces: seq<bytes>): (r: seq<bytes>)
  {
    if pieces == [] then []
    else (if Trimmed(pieces[0]) == [] then [] else [Trimmed(pieces[0])]) + NonEmpty(pieces[1..])
  }

  lemma NonEmptyCons(a: bytes, rest: seq<bytes>)
    ensures NonEmpty([a]) == if Trimmed(a) == [] then [] else [Trimmed(a)]
    ensures NonEmpty([a] + rest) == NonEmpty([a]) + NonEmpty(rest)
  {
    hide Trimmed;
    assert [a][1..] == [] && ([a] + rest)[1..] == rest;
  }

  function Pieces(s: bytes, d: byte): (r: seq<bytes>)
  {
    NonEmpty(Cut(s, d))
  }

  /** `left` may run on into the text after the piece and `right` back before it: then there is nothing. */
  method Trim(b: bytes, left0: nat, right0: nat) returns (left: nat, right: nat)
    requires left0 <= right0 <= |b|
    ensures left < right <==> Trimmed(b[left0..right0]) != []
    ensures left < right ==> right <= |b| && b[left..right] == Trimmed(b[left0..right0])
    ensures left < right ==>
              && left0 <= left && right <= right0
              && b[left] != 32 && b[left] != 9 && b[right - 1] != 32 && b[right - 1] != 9
              && (forall j :: left0 <= j < left || right <= j < right0 ==> b[j] == 32 || b[j] == 9)
  {
    hide Trimmed;
    left, right := left0, right0;
    while left < |b| && Blank(b[left])
      invariant left0 <= left <= |b|
      invariant forall j :: left0 <= j < left ==> Blank(b[j])
    {
      left := left + 1;
    }
    while right > 0 && Blank(b[right - 1])
      invariant 0 <= right <= right0
      invariant forall j :: right <= j < right0 ==> Blank(b[j])
    {
      right := right - 1;
    }
    Trimming(b, left0, right0, left, right);
  }

  lemma Trimming(b: bytes, from: nat, to: nat, left: nat, right: nat)
    requires from <= to <= |b| && from <= left <= |b| && right <= to
    requires (forall j :: from <= j < left ==> Blank(b[j])) && (left < |b| ==> !Blank(b[left]))
    requires (forall j :: right <= j < to ==> Blank(b[j])) && (right > 0 ==> !Blank(b[right - 1]))
    ensures left < right <==> Trimmed(b[from..to]) != []
    ensures left < right ==> b[left..right] == Trimmed(b[from..to])
  {
    hide Trimmed;
    var piece := b[from..to];
    if left < right {
      TrimmedIs(piece, left - from, right - from);
      SliceOfSlice(b, from, to, left, right);
    } else {
      forall j | 0 <= j < |piece| ensures Blank(piece[j]) { assert piece[j] == b[from + j]; }
      TrimmedBlank(piece);
    }
  }

  lemma SliceOfSlice(b: bytes, from: nat, to: nat, l: nat, r: nat)
    requires from <= l <= r <= to <= |b|
    ensures b[from..to][l - from..r - from] == b[l..r]
  {
    var x := b[from..to][l - from..r - from];
    forall k | 0 <= k < r - l ensures x[k] == b[l..r][k] { assert x[k] == b[from..to][l - from + k]; }
  }

  /** The pieces stand for the calls of the callback, in order. */
  method Split(b: bytes, d: byte) returns (pieces: seq<bytes>)
    ensures pieces == Pieces(b, d)
  {
    hide Trimmed, NonEmpty, Cut;
    pieces := [];
    var i, beg := 0, 0;
    assert b[0..] == b;
    while i < |b|
      invariant beg <= i <= |b|
      invariant d !in b[beg..i]
      invariant pieces + Pieces(b[beg..], d) == Pieces(b, d)
    {
      if b[i] == d {
        PieceDone(b, d, beg, i);
        NonEmptyCons(b[beg..i], []);
        ConcatAssoc(pieces, NonEmpty([b[beg..i]]), Pieces(b[i + 1..], d));
        var l, r := Trim(b, beg, i);
        if l < r { pieces := pieces + [b[l..r]]; }
        beg := i + 1;
      }
      i := i + 1;
    }
    assert b[beg..] == b[beg..i];
    CutAtFirst(b[beg..i], d, []);
    NonEmptyCons(b[beg..i], []);
    TrimmedBlank([]);
    if i > 0 {
      var l, r := Trim(b, beg, i);
      if l < r { pieces := pieces + [b[l..r]]; }
    }
  }

  lemma PieceDone(b: bytes, d: byte, beg: nat, i: nat)
    requires beg <= i < |b| && b[i] == d && d !in b[beg..i]
    ensures Pieces(b[beg..], d) == NonEmpty([b[beg..i]]) + Pieces(b[i + 1..], d)
  {
    assert b[beg..] == b[beg..i] + [d] + b[i + 1..];
    CutAtFirst(b[beg..i], d, b[i + 1..]);
    NonEmptyCons(b[beg..i], Cut(b[i + 1..], d));
  }

  // ---------- The multimap ----------

  /** `std::string` order: unsigned bytes, a prefix first. */
  predicate Less(a: bytes, b: bytes)
  {
    if b == [] then false
    else if a == [] then true
    else a[0] < b[0] || (a[0] == b[0] && Less(a[1..], b[1..]))
  }

  /** At the first difference the smaller byte comes first; short of one, the shorter text. */
  lemma {:induction false} LessExactly(a: bytes, b: bytes)
    ensures Less(a, b) <==>
              exists k :: 0 <= k <= |a| && k < |b| && a[..k] == b[..k] && (k == |a| || a[k] < b[k])
  {
    if b == [] {
    } else if a == [] {
      assert a[..0] == b[..0];
    } else if a[0] != b[0] {
      if a[0] < b[0] { assert a[..0] == b[..0]; }
      forall k | 0 < k <= |a| && k < |b| ensures a[..k] != b[..k] { assert a[..k][0] == a[0] && b[..k][0] == b[0]; }
    } else {
      LessExactly(a[1..], b[1..]);
      if k: nat :| k <= |a| - 1 && k < |b| - 1 && a[1..][..k] == b[1..][..k] && (k == |a| - 1 || a[1..][k] < b[1..][k]) {
        assert a[..k + 1] == [a[0]] + a[1..][..k] && b[..k + 1] == [b[0]] + b[1..][..k];
        assert a[..k + 1] == b[..k + 1];
      }
      if k: nat :| k <= |a| && k < |b| && a[..k] == b[..k] && (k == |a| || a[k] < b[k]) {
        assert k > 0;
        assert a[1..][..k - 1] == a[..k][1..] && b[1..][..k - 1] == b[..k][1..];
      }
    }
  }

  type Params = seq<(bytes, bytes)>

  predicate Sorted(ps: Params)
  {
    forall i, j :: 0 <= i < j < |ps| ==> !Less(ps[j].0, ps[i].0)
  }

  /** `std::multimap::emplace`: after the entries whose keys are not greater. */
  function Emplace(ps: Params, key: bytes, val: bytes): (r: Params)
  {
    if ps == [] || Less(key, ps[0].0) then [(key, val)] + ps else [ps[0]] + Emplace(ps[1..], key, val)
  }

  lemma {:induction false} LessTrans(a: bytes, b: bytes, c: bytes)
    requires !Less(b, a) && !Less(c, b)
    ensures !Less(c, a)
  {
    if a != [] && b != [] && c != [] && a[0] == b[0] == c[0] { LessTrans(a[1..], b[1..], c[1..]); }
  }

  lemma {:induction false} LessAsym(a: bytes, b: bytes)
    requires Less(a, b)
    ensures !Less(b, a)
  {
    if a != [] && a[0] == b[0] { LessAsym(a[1..], b[1..]); }
  }

  /** The multimap stays in key order and gains exactly the new pair. */
  lemma {:induction false} EmplaceSorted(ps: Params, key: bytes, val: bytes)
    requires Sorted(ps)
    ensures Sorted(Emplace(ps, key, val))
    ensures multiset(Emplace(ps, key, val)) == multiset(ps) + multiset{(key, val)}
  {
    var r := Emplace(ps, key, val);
    if ps != [] && !Less(key, ps[0].0) {
      var tail := ps[1..];
      EmplaceSorted(tail, key, val);
      assert ps == [ps[0]] + tail;
      forall j | 0 < j < |r| ensures !Less(r[j].0, ps[0].0) {
        assert r[j] in multiset(Emplace(tail, key, val));
        assert r[j] == (key, val) || r[j] in multiset(tail);
        if r[j] != (key, val) {
          assert r[j] in tail;
        }
      }
    } else if ps != [] {
      LessAsym(key, ps[0].0);
      forall j | 0 <= j < |ps| ensures !Less(ps[j].0, key) {
        if j > 0 { LessTrans(key, ps[0].0, ps[j].0); }
      }
    }
  }

  lemma {:induction false} EmplaceLast(ps: Params, key: bytes, val: bytes)
    requires forall p :: p in ps ==> !Less(key, p.0)
    ensures Emplace(ps, key, val) == ps + [(key, val)]
  {
    if ps != [] {
      assert ps[0] in ps;
      EmplaceLast(ps[1..], key, val);
    }
  }

  // ---------- Writing and reading a query ----------

  function PairText(p: (bytes, bytes)): (r: bytes)
  {
    p.0 + [EQUALS] + EncodeParam(p.1)
  }

  function ToQuery(ps: Params): (r: bytes)
  {
    if ps == [] then []
    else if |ps| == 1 then PairText(ps[0])
    else PairText(ps[0]) + [AMPERSAND] + ToQuery(ps[1..])
  }

  /** The first piece is the key and the last of the others the value; no piece, no pair. */
  function KeyValue(kv: bytes): (r: Option<(bytes, bytes)>)
  {
    var ps := Pieces(kv, EQUALS);
    if ps == [] then None
    else Some((DecodeUrl(ps[0], true), DecodeUrl(if |ps| > 1 then ps[|ps| - 1] else [], true)))
  }

  /** A piece seen before is skipped. */
  function ParsePieces(kvs: seq<bytes>, cache: set<bytes>, params: Params): (r: Params)
  {
    if kvs == [] then params
    else if kvs[0] in cache then ParsePieces(kvs[1..], cache, params)
    else
      var p := KeyValue(kvs[0]);
      ParsePieces(kvs[1..], cache + {kvs[0]}, if p.None? then params else Emplace(params, p.value.0, p.value.1))
  }

  function ParseQuery(s: bytes, params: Params): (r: Params)
  {
    ParsePieces(Pieces(s, AMPERSAND), {}, params)
  }

  /** Keys are written as they are but read decoded: these are the ones that survive. */
  predicate KeyOk(key: bytes)
  {
    key != [] && !Blank(key[0]) && !Blank(key[|key| - 1]) && AMPERSAND !in key && EQUALS !in key
    && Literal(key)
  }

  lemma UnreservedKeyOk(key: bytes)
    requires key != [] && forall c :: c in key ==> Plain(c)
    ensures KeyOk(key)
  {
    assert key[0] in key && key[|key| - 1] in key;
    forall i | 0 <= i < |key| ensures !EscapeAt(key, i) { assert key[i] in key; }
  }

  lemma PairTextIsOnePiece(p: (bytes, bytes))
    requires KeyOk(p.0)
    ensures AMPERSAND !in PairText(p) && Trimmed(PairText(p)) == PairText(p) != []
  {
    EncodedAlphabet(p.1);
    hide EncodeParam, DecodeUrl, Trimmed;
    var t, e := PairText(p), EncodeParam(p.1);
    assert t[0] == p.0[0];
    if e != [] { assert t[|t| - 1] == e[|e| - 1] && e[|e| - 1] in e; }
    TrimmedTight(t);
  }

  lemma PiecesOfPair(p: (bytes, bytes))
    requires KeyOk(p.0)
    ensures Pieces(PairText(p), EQUALS) == if EncodeParam(p.1) == [] then [p.0] else [p.0, EncodeParam(p.1)]
  {
    hide EncodeParam, DecodeUrl, Trimmed, Cut, NonEmpty;
    var e := EncodeParam(p.1);
    EncodedAlphabet(p.1);
    CutAtFirst(p.0, EQUALS, e);
    CutAtFirst(e, EQUALS, []);
    TrimmedTight(p.0);
    if e != [] {
      assert e[0] in e && e[|e| - 1] in e;
      TrimmedTight(e);
    }
    NonEmptyTwo(p.0, e);
  }

  lemma KeyValueOfPair(p: (bytes, bytes))
    requires KeyOk(p.0)
    ensures KeyValue(PairText(p)) == Some(p)
  {
    PiecesOfPair(p);
    DecodeOfEncode(p.1, true);
    LiteralExactly(p.0);
    hide EncodeParam, DecodeUrl, Pieces, Literal;
  }

  lemma NonEmptyTwo(a: bytes, b: bytes)
    requires Trimmed(a) == a != [] && (b != [] ==> Trimmed(b) == b)
    ensures NonEmpty([a] + [b]) == if b == [] then [a] else [a, b]
  {
    TrimmedBlank([]);
    NonEmptyCons(a, [b]);
    NonEmptyCons(b, []);
  }

  function PairTexts(ps: Params): (r: seq<bytes>)
  {
    if ps == [] then [] else [PairText(ps[0])] + PairTexts(ps[1..])
  }

  lemma {:induction false} PiecesOfQuery(ps: Params)
    requires forall p :: p in ps ==> KeyOk(p.0)
    ensures Pieces(ToQuery(ps), AMPERSAND) == PairTexts(ps)
  {
    hide KeyOk, PairText, Trimmed;
    if ps == [] {
      NothingCut();
    } else {
      assert ps[0] in ps;
      PairTextIsOnePiece(ps[0]);
      CutAtFirst(PairText(ps[0]), AMPERSAND, ToQuery(ps[1..]));
      if |ps| > 1 {
        PiecesOfQuery(ps[1..]);
        var rest := Cut(ToQuery(ps[1..]), AMPERSAND);
        NonEmptyCons(PairText(ps[0]), rest);
      } else {
        NonEmptyCons(PairText(ps[0]), []);
        assert PairTexts(ps[1..]) == [];
      }
    }
  }

  lemma NothingCut()
    ensures Pieces([], AMPERSAND) == []
  {
    assert Cut([], AMPERSAND) == [[]] && Trimmed([]) == [];
  }

  /** The first occurrence of every pair. */
  function Deduped(ps: Params, seen: set<(bytes, bytes)>): (r: Params)
  {
    if ps == [] then []
    else if ps[0] in seen then Deduped(ps[1..], seen)
    else [ps[0]] + Deduped(ps[1..], seen + {ps[0]})
  }

  lemma {:induction false} ParsePairTexts(ps: Params, seen: set<(bytes, bytes)>, cache: set<bytes>, params: Params)
    requires forall p :: p in ps || p in seen ==> KeyOk(p.0)
    requires forall p :: p in seen ==> PairText(p) in cache
    requires forall t :: t in cache ==> exists p :: p in seen && PairText(p) == t
    requires Sorted(ps) && forall p, q :: p in params && q in ps ==> !Less(q.0, p.0)
    ensures ParsePieces(PairTexts(ps), cache, params) == params + Deduped(ps, seen)
  {
    hide KeyOk, PairText, Less, KeyValue;
    if ps != [] {
      var p, t := ps[0], PairText(ps[0]);
      assert p in ps;
      KeyValueOfPair(p);
      var rest := ps[1..];
      assert PairTexts(ps)[1..] == PairTexts(rest);
      if t in cache {
        var q :| q in seen && PairText(q) == t;
        KeyValueOfPair(q);
        ParsePairTexts(rest, seen, cache, params);
      } else {
        EmplaceLast(params, p.0, p.1);
        forall x, y | x in params + [p] && y in rest ensures !Less(y.0, x.0) { }
        ParsePairTexts(rest, seen + {p}, cache + {t}, params + [p]);
        ConcatAssoc(params, [p], Deduped(rest, seen + {p}));
      }
    }
  }

  predicate Distinct(ps: Params)
  {
    forall i, j :: 0 <= i < j < |ps| ==> ps[i] != ps[j]
  }

  lemma DistinctCons(p: (bytes, bytes), rest: Params)
    ensures Distinct([p] + rest) <==> Distinct(rest) && p !in rest
  {
    var ps := [p] + rest;
    if Distinct(ps) {
      forall i, j | 0 <= i < j < |rest| ensures rest[i] != rest[j] { assert ps[i + 1] != ps[j + 1]; }
      forall i | 0 <= i < |rest| ensures rest[i] != p { assert ps[0] != ps[i + 1]; }
    }
  }

  lemma {:induction false} DedupedKeepsDistinct(ps: Params, seen: set<(bytes, bytes)>)
    ensures Deduped(ps, seen) == ps <==> Distinct(ps) && forall p :: p in ps ==> p !in seen
    ensures |Deduped(ps, seen)| <= |ps|
  {
    if ps != [] {
      var p, rest := ps[0], ps[1..];
      assert ps == [p] + rest && p in ps;
      DedupedKeepsDistinct(rest, seen);
      DedupedKeepsDistinct(rest, seen + {p});
      assert Deduped(ps, seen) == ps ==> Deduped(rest, seen + {p}) == rest;
      DistinctCons(p, rest);
    }
  }

  /** Reading a written query gives back each pair once, in order. */
  lemma ParseOfToQuery(ps: Params)
    requires Sorted(ps) && forall p :: p in ps ==> KeyOk(p.0)
    ensures ParseQuery(ToQuery(ps), []) == Deduped(ps, {})
  {
    hide KeyOk, PairText, Less;
    PiecesOfQuery(ps);
    ParsePairTexts(ps, {}, {}, []);
  }

  /** So the query round-trips exactly when no pair is there twice. */
  lemma QueryRoundTrip(ps: Params)
    requires Sorted(ps) && forall p :: p in ps ==> KeyOk(p.0)
    ensures ParseQuery(ToQuery(ps), []) == ps <==> Distinct(ps)
  {
    hide KeyOk, Sorted;
    ParseOfToQuery(ps);
    DedupedKeepsDistinct(ps, {});
  }

  /** A key is not encoded when written: with an ampersand in it, one parameter comes back as two. */
  lemma ReservedKeyBreaks(a: byte, b: byte)
    requires Plain(a) && Plain(b) && Less([a], [b])
    ensures ParseQuery(ToQuery([([a, AMPERSAND, b], [])]), []) == [([a], []), ([b], [])]
  {
    var query := ToQuery([([a, AMPERSAND, b], [])]);
    assert query == [a] + [AMPERSAND] + [b, EQUALS];
    PiecesOfReserved(a, b);
    KeyValueOfReserved(a, b);
    hide KeyValue, Pieces, ToQuery;
    LessAsym([a], [b]);
    assert |[b, EQUALS]| != |[a]|;
    ParseTwo([a], [b, EQUALS], ([a], []), ([b], []));
  }

  lemma ParseTwo(kv: bytes, other: bytes, p: (bytes, bytes), q: (bytes, bytes))
    requires kv != other && KeyValue(kv) == Some(p) && KeyValue(other) == Some(q) && !Less(q.0, p.0)
    ensures ParsePieces([kv, other], {}, []) == [p, q]
  {
    hide KeyValue, Less;
    EmplaceLast([], p.0, p.1);
    EmplaceLast([p], q.0, q.1);
    var kvs, last := [kv, other], [other];
    assert kvs[1..] == last && last[1..] == [];
    assert ParsePieces(last, {} + {kv}, [p]) == [p, q];
  }

  lemma PiecesOfReserved(a: byte, b: byte)
    requires Plain(a) && Plain(b)
    ensures Pieces([a] + [AMPERSAND] + [b, EQUALS], AMPERSAND) == [[a], [b, EQUALS]]
  {
    hide Cut, NonEmpty, Trimmed;
    CutAtFirst([a], AMPERSAND, [b, EQUALS]);
    CutAtFirst([b, EQUALS], AMPERSAND, []);
    TrimmedTight([a]);
    TrimmedTight([b, EQUALS]);
    NonEmptyCons([a], [[b, EQUALS]]);
    NonEmptyCons([b, EQUALS], []);
  }

  lemma KeyValueOfReserved(a: byte, b: byte)
    requires Plain(a) && Plain(b)
    ensures KeyValue([a]) == Some(([a], [])) && KeyValue([b, EQUALS]) == Some(([b], []))
  {
    hide Cut, NonEmpty, Trimmed, DecodeUrl;
    CutAtFirst([a], EQUALS, []);
    TrimmedTight([a]);
    NonEmptyCons([a], []);
    DecodePlain([a], true);
    DecodePlain([], true);
    UnreservedKeyOk([b]);
    KeyValueOfPair(([b], []));
    assert PairText(([b], [])) == [b, EQUALS];
  }

  // ---------- The methods ----------

  method ParamsToQueryStr(params: Params) returns (query: bytes)
    ensures query == ToQuery(params)
  {
    hide PairText;
    query := [];
    var it := 0;
    assert params[0..] == params;
    while it < |params|
      invariant it <= |params|
      invariant it == |params| ==> query == ToQuery(params)
      invariant it < |params| ==>
        query + (if it > 0 then [AMPERSAND] else []) + ToQuery(params[it..]) == ToQuery(params)
    {
      ghost var tail := params[it..];
      ghost var before := query;
      if it != 0 { query := query + [AMPERSAND]; }
      query := query + params[it].0;
      query := query + [EQUALS];
      var escaped := EncodeQueryParam(params[it].1);
      query := query + escaped;
      it := it + 1;
      assert tail[1..] == params[it..];
      AppendPair(before + (if it > 1 then [AMPERSAND] else []), tail[0], ToQuery(params[it..]));
    }
  }

  lemma AppendPair(before: bytes, p: (bytes, bytes), rest: bytes)
    ensures before + p.0 + [EQUALS] + EncodeParam(p.1) == before + PairText(p)
    ensures before + (PairText(p) + [AMPERSAND] + rest) == before + PairText(p) + [AMPERSAND] + rest
  {
  }

  /** `params` goes in and comes out extended. */
  method ParseQueryText(s: bytes, params0: Params) returns (params: Params)
    ensures params == ParseQuery(s, params0)
  {
    hide KeyValue, Emplace, Pieces;
    params := params0;
    var cache: set<bytes> := {};
    var kvs := Split(s, AMPERSAND);
    assert kvs[0..] == kvs;
    for n := 0 to |kvs|
      invariant ParsePieces(kvs[n..], cache, params) == ParseQuery(s, params0)
    {
      assert kvs[n..][1..] == kvs[n + 1..];
      var kv := kvs[n];
      if kv in cache { continue; }
      cache := cache + {kv};
      var key, val := FirstAndLast(kv);
      if key != [] {
        var k := DecodeUrlText(key, true);
        var v := DecodeUrlText(val, true);
        params := Emplace(params, k, v);
      }
    }
  }

  /** The inner callback: the first piece goes to the key, the others to the value. */
  method FirstAndLast(kv: bytes) returns (key: bytes, val: bytes)
    ensures key == [] <==> KeyValue(kv) == None
    ensures key != [] ==> KeyValue(kv) == Some((DecodeUrl(key, true), DecodeUrl(val, true)))
  {
    hide DecodeUrl;
    var pieces := Split(kv, EQUALS);
    NonEmptyPieces(Cut(kv, EQUALS));
    key, val := [], [];
    for m := 0 to |pieces|
      invariant m == 0 ==> key == [] && val == []
      invariant m > 0 ==> key == pieces[0] && val == (if m > 1 then pieces[m - 1] else [])
    {
      if key == [] { key := pieces[m]; } else { val := pieces[m]; }
    }
  }

  lemma {:induction false} NonEmptyPieces(pieces: seq<bytes>)
    ensures forall i :: 0 <= i < |NonEmpty(pieces)| ==> NonEmpty(pieces)[i] != []
  {
    if pieces != [] { NonEmptyPieces(pieces[1..]); }
  }
}
