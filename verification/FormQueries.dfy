/** Query strings on their bytes: what a form sends is read back whole, and what becomes of a piece with several equals
    signs. */
module FormQueries {
  import opened Bytes
  import opened PercentEncoding
  import opened QueryString

  // ---------- What is written ----------

  /** The written query: keys as they are, byte 61, encoded values, with byte 38 between the pairs. */
  function QueryText(ps: Params): (r: bytes)
  {
    if ps == [] then []
    else ps[0].0 + [61] + EncodeParam(ps[0].1) + if |ps| == 1 then [] else [38] + QueryText(ps[1..])
  }

  lemma {:induction false} QueryWritten(ps: Params)
    ensures ToQuery(ps) == QueryText(ps)
  {
    if |ps| == 1 {
      assert PairText(ps[0]) + [] == PairText(ps[0]);
    } else if ps != [] {
      QueryWritten(ps[1..]);
      ConcatAssoc(PairText(ps[0]), [38], QueryText(ps[1..]));
    }
  }

  // ---------- Pieces of known parts ----------

  /** No separator in it, and nothing at its ends that trimming would touch. */
  predicate Tight(s: bytes, d: byte)
  {
    s != [] && d !in s && s[0] != 32 && s[0] != 9 && s[|s| - 1] != 32 && s[|s| - 1] != 9
  }

  function Joined(parts: seq<bytes>, d: byte): (r: bytes)
  {
    if parts == [] then [] else if |parts| == 1 then parts[0] else parts[0] + [d] + Joined(parts[1..], d)
  }

  lemma {:induction false} PiecesOfJoined(parts: seq<bytes>, d: byte)
    requires forall p :: p in parts ==> Tight(p, d)
    ensures Pieces(Joined(parts, d), d) == parts
  {
    hide Cut, NonEmpty, Trimmed;
    if parts == [] {
      assert Cut([], d) == [[]] by { CutAtFirst([], d, []); }
      TrimmedBlank([]);
      NonEmptyCons([], []);
    } else {
      assert parts[0] in parts;
      TrimmedTight(parts[0]);
      CutAtFirst(parts[0], d, Joined(parts[1..], d));
      NonEmptyCons(parts[0], []);
      if |parts| > 1 {
        forall p | p in parts[1..] ensures p in parts { }
        PiecesOfJoined(parts[1..], d);
        NonEmptyCons(parts[0], Cut(Joined(parts[1..], d), d));
      }
      assert parts == [parts[0]] + parts[1..];
    }
  }

  /** Of the parts that equals signs make, the first is the key and the last of the others the value. */
  lemma KeyValueOfParts(parts: seq<bytes>)
    requires parts != [] && forall p :: p in parts ==> Tight(p, 61)
    ensures KeyValue(Joined(parts, 61))
         == Some((DecodeUrl(parts[0], true), if |parts| == 1 then [] else DecodeUrl(parts[|parts| - 1], true)))
  {
    PiecesOfJoined(parts, 61);
    hide Pieces, Joined, DecodeUrl;
    EmptyDecoded();
  }

  lemma EmptyDecoded()
    ensures DecodeUrl([], true) == []
  {
  }

  /** "a=b=c" is the key "a" with the value "c". */
  lemma MiddleLost(a: byte, b: byte, c: byte)
    requires Plain(a) && Plain(b) && Plain(c)
    ensures KeyValue([a, 61, b, 61, c]) == Some(([a], [c]))
  {
    var two := [[b], [c]];
    assert two[1..] == [[c]];
    assert Joined([[c]], 61) == [c] && Joined(two, 61) == [b] + [61] + [c];
    assert [[a], [b], [c]][1..] == two;
    assert Joined([[a], [b], [c]], 61) == [a] + [61] + ([b] + [61] + [c]) == [a, 61, b, 61, c];
    hide Joined;
    KeyValueOfParts([[a], [b], [c]]);
    DecodePlain([a], true);
    DecodePlain([c], true);
    hide DecodeUrl, KeyValue;
  }

  // ---------- What a form sends ----------

  lemma {:induction false} FormAlphabet(v: bytes)
    ensures forall c :: c in FormEncode(v) ==> Plain(c) || c == 37 || c == 43
    ensures FormEncode(v) == [] <==> v == []
  {
    if v != [] {
      FormAlphabet(v[1..]);
      UpperHexValue(v[0] / 16);
      UpperHexValue(v[0] % 16);
    }
  }

  lemma FormTight(v: bytes, d: byte)
    requires v != [] && (d == 38 || d == 61)
    ensures Tight(FormEncode(v), d)
  {
    FormAlphabet(v);
    var e := FormEncode(v);
    hide FormEncode;
    assert e[0] in e && e[|e| - 1] in e;
  }

  function FormPair(p: (bytes, bytes)): (r: bytes)
  {
    FormEncode(p.0) + [61] + FormEncode(p.1)
  }

  function FormPairs(ps: Params): (r: seq<bytes>)
    ensures |r| == |ps| && forall i :: 0 <= i < |ps| ==> r[i] == FormPair(ps[i])
  {
    seq(|ps|, i requires 0 <= i < |ps| => FormPair(ps[i]))
  }

  /** The text of a form, with byte 38 between its pairs. */
  function FormQuery(ps: Params): (r: bytes)
  {
    Joined(FormPairs(ps), 38)
  }

  lemma FormPairTight(p: (bytes, bytes))
    requires p.0 != []
    ensures Tight(FormPair(p), 38)
  {
    FormTight(p.0, 38);
    if p.1 != [] { FormTight(p.1, 38); } else { assert FormEncode(p.1) == []; }
    hide FormEncode;
  }

  lemma FormPairRead(p: (bytes, bytes))
    requires p.0 != []
    ensures KeyValue(FormPair(p)) == Some(p)
  {
    var k, v := FormEncode(p.0), FormEncode(p.1);
    FormTight(p.0, 61);
    DecodeOfForm(p.0);
    DecodeOfForm(p.1);
    if p.1 != [] {
      FormTight(p.1, 61);
      var parts := [k, v];
      assert parts[1..] == [v];
      assert Joined(parts, 61) == k + [61] + v;
      hide FormEncode, Joined;
      KeyValueOfParts(parts);
    } else {
      assert v == [];
      hide FormEncode;
      KeyOnly(k);
    }
    hide KeyValue, DecodeUrl;
  }

  lemma KeyOnly(k: bytes)
    requires Tight(k, 61)
    ensures KeyValue(k + [61] + []) == Some((DecodeUrl(k, true), []))
  {
    hide Cut, NonEmpty, Trimmed, DecodeUrl;
    CutAtFirst(k, 61, []);
    CutAtFirst([], 61, []);
    TrimmedTight(k);
    TrimmedBlank([]);
    NonEmptyCons(k, [[]]);
    NonEmptyCons([], []);
    assert NonEmpty([k] + [[]]) == [k];
    EmptyDecoded();
  }

  /** The pairs put into the multimap one after the other. */
  function EmplaceAll(ps: Params, params: Params): (r: Params)
  {
    if ps == [] then params else EmplaceAll(ps[1..], Emplace(params, ps[0].0, ps[0].1))
  }

  /** Texts that stand for the pairs, equal where the pairs are. */
  predicate Stands(texts: seq<bytes>, ps: Params)
  {
    && |texts| == |ps|
    && (forall i :: 0 <= i < |ps| ==> KeyValue(texts[i]) == Some(ps[i]))
    && forall i, j :: 0 <= i < |ps| && 0 <= j < |ps| ==> (texts[i] == texts[j] <==> ps[i] == ps[j])
  }

  lemma {:induction false} ParseTexts(texts: seq<bytes>, ps: Params, cache: set<bytes>, seen: set<(bytes, bytes)>,
                                      params: Params)
    requires Stands(texts, ps) && forall i :: 0 <= i < |ps| ==> (texts[i] in cache <==> ps[i] in seen)
    ensures ParsePieces(texts, cache, params) == EmplaceAll(Deduped(ps, seen), params)
    decreases |ps|
  {
    hide KeyValue, Emplace;
    if ps != [] {
      var t, p := texts[0], ps[0];
      assert Stands(texts[1..], ps[1..]);
      if t in cache {
        ParseTexts(texts[1..], ps[1..], cache, seen, params);
      } else {
        ParseTexts(texts[1..], ps[1..], cache + {t}, seen + {p}, Emplace(params, p.0, p.1));
        assert Deduped(ps, seen)[1..] == Deduped(ps[1..], seen + {p});
      }
    }
  }

  /** What a form sends, with spaces as plus signs, is read back whole: each pair once, whatever bytes its key and
      value have, as long as the key is not empty. */
  lemma ParseOfForm(ps: Params)
    requires forall p :: p in ps ==> p.0 != []
    ensures ParseQuery(FormQuery(ps), []) == EmplaceAll(Deduped(ps, {}), [])
  {
    var texts := FormPairs(ps);
    assert forall i :: 0 <= i < |ps| ==> ps[i] in ps;
    forall i | 0 <= i < |ps| ensures KeyValue(texts[i]) == Some(ps[i]) && Tight(texts[i], 38) {
      FormPairRead(ps[i]);
      FormPairTight(ps[i]);
    }
    hide FormPair, KeyValue, Tight, Pieces, Joined;
    assert Stands(texts, ps);
    PiecesOfJoined(texts, 38);
    ParseTexts(texts, ps, {}, {}, []);
  }

  /** What comes of that is in key order and has exactly those pairs. */
  lemma {:induction false} EmplaceAllSorted(ps: Params, params: Params)
    requires Sorted(params)
    ensures Sorted(EmplaceAll(ps, params))
    ensures multiset(EmplaceAll(ps, params)) == multiset(params) + multiset(ps)
  {
    hide Emplace, Sorted;
    if ps == [] {
    } else {
      EmplaceSorted(params, ps[0].0, ps[0].1);
      EmplaceAllSorted(ps[1..], Emplace(params, ps[0].0, ps[0].1));
      assert ps == [ps[0]] + ps[1..];
    }
  }
}
