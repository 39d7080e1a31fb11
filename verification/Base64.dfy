/** `base64_encode`: the accumulator that streams bits against the group encoding of RFC 4648, section 4. */
module Base64 {
  import opened Bytes

  const UPPER := "ABCDEFGHIJKLMNOPQRSTUVWXYZ"
  const LOWER := "abcdefghijklmnopqrstuvwxyz"
  const LOOKUP := UPPER + LOWER + "0123456789+/"

  type sextet = x: int | 0 <= x < 64

  function Symbol(x: sextet): (c: char)
  {
    LOOKUP[x]
  }

  /** The value of a symbol of the alphabet. */
  function Value(c: char): (v: Option<sextet>)
  {
    if 'A' <= c <= 'Z' then Some((c - 'A') as int)
    else if 'a' <= c <= 'z' then Some((c - 'a') as int + 26)
    else if '0' <= c <= '9' then Some((c - '0') as int + 52)
    else if c == '+' then Some(62)
    else if c == '/' then Some(63)
    else None
  }

  lemma Letter(x: nat)
    requires x < 26
    ensures UPPER[x] == 'A' + x as char && LOWER[x] == 'a' + x as char
  {
    assert x == 0 || x == 1 || x == 2 || x == 3 || x == 4 || x == 5 || x == 6 || x == 7 || x == 8
        || x == 9 || x == 10 || x == 11 || x == 12 || x == 13 || x == 14 || x == 15 || x == 16 || x == 17
        || x == 18 || x == 19 || x == 20 || x == 21 || x == 22 || x == 23 || x == 24 || x == 25;
  }

  lemma SymbolIs(x: sextet)
    ensures Symbol(x) == if x < 26 then 'A' + x as char
                         else if x < 52 then 'a' + (x - 26) as char
                         else if x < 62 then '0' + (x - 52) as char
                         else if x == 62 then '+' else '/'
  {
    if x < 26 {
      Letter(x);
    } else if x < 52 {
      Letter(x - 26);
    } else {
      var y := x - 52;
      assert Symbol(x) == "0123456789+/"[y];
      assert y == 0 || y == 1 || y == 2 || y == 3 || y == 4 || y == 5 || y == 6 || y == 7 || y == 8
          || y == 9 || y == 10 || y == 11;
    }
  }

  lemma ValueOfSymbol(x: sextet)
    ensures Value(Symbol(x)) == Some(x) && Symbol(x) != '='
  {
    SymbolIs(x);
  }

  lemma SymbolOfValue(c: char)
    ensures Value(c).Some? ==> Symbol(Value(c).value) == c
  {
    if Value(c).Some? { SymbolIs(Value(c).value); }
  }

  /** The four sextets of the bytes a, b, c, and back. */
  function First(a: byte): (x: sextet) { a / 4 }
  function Second(a: byte, b: byte): (x: sextet) { a % 4 * 16 + b / 16 }
  function Third(b: byte, c: byte): (x: sextet) { b % 16 * 4 + c / 64 }
  function Fourth(c: byte): (x: sextet) { c % 64 }
  function ByteA(x: sextet, y: sextet): (a: byte) { x * 4 + y / 16 }
  function ByteB(y: sextet, z: sextet): (b: byte) { y % 16 * 16 + z / 4 }
  function ByteC(z: sextet, w: sextet): (c: byte) { z % 4 * 64 + w }

  lemma JoinSplit(a: byte, b: byte, c: byte)
    ensures ByteA(First(a), Second(a, b)) == a
    ensures ByteB(Second(a, b), Third(b, c)) == b
    ensures ByteC(Third(b, c), Fourth(c)) == c
    ensures Second(a, 0) % 16 == 0 && Third(b, 0) % 4 == 0
  {
  }

  lemma SplitJoin(x: sextet, y: sextet, z: sextet, w: sextet)
    ensures First(ByteA(x, y)) == x && Second(ByteA(x, y), ByteB(y, z)) == y
    ensures Third(ByteB(y, z), ByteC(z, w)) == z && Fourth(ByteC(z, w)) == w
    ensures y % 16 == 0 ==> Second(ByteA(x, y), 0) == y
    ensures z % 4 == 0 ==> Third(ByteB(y, z), 0) == z
  {
  }

  /** Section 4: three bytes make four symbols; one or two left over are padded. */
  function Encode(s: bytes): (r: string)
  {
    if s == [] then ""
    else if |s| == 1 then [Symbol(First(s[0])), Symbol(Second(s[0], 0)), '=', '=']
    else if |s| == 2 then [Symbol(First(s[0])), Symbol(Second(s[0], s[1])), Symbol(Third(s[1], 0)), '=']
    else
      [Symbol(First(s[0])), Symbol(Second(s[0], s[1])), Symbol(Third(s[1], s[2])), Symbol(Fourth(s[2]))]
      + Encode(s[3..])
  }

  /** The strict decoder: padding only at the end, and no stray bits under it (section 3.5). */
  function Decode(t: string): (r: Option<bytes>)
  {
    if t == "" then Some([])
    else if |t| < 4 then None
    else
      var a, b, c, d := Value(t[0]), Value(t[1]), Value(t[2]), Value(t[3]);
      if a.None? || b.None? then None
      else if c.None? then
        if t[2..] == ['=', '='] && b.value % 16 == 0 then Some([ByteA(a.value, b.value)]) else None
      else if d.None? then
        if t[3..] == ['='] && c.value % 4 == 0
        then Some([ByteA(a.value, b.value), ByteB(b.value, c.value)]) else None
      else
        var rest := Decode(t[4..]);
        if rest.None? then None
        else Some([ByteA(a.value, b.value), ByteB(b.value, c.value), ByteC(c.value, d.value)] + rest.value)
  }

  lemma PadHasNoValue()
    ensures Value('=') == None
  {
  }

  /** The decoder undoes the encoding. */
  lemma {:induction false} DecodeOfEncode(s: bytes)
    ensures Decode(Encode(s)) == Some(s)
  {
    hide Symbol, Value, First, Second, Third, Fourth, ByteA, ByteB, ByteC;
    PadHasNoValue();
    if s != [] {
      var b: byte := if |s| > 1 then s[1] else 0;
      var c: byte := if |s| > 2 then s[2] else 0;
      JoinSplit(s[0], b, c);
      ValueOfSymbol(First(s[0]));
      ValueOfSymbol(Second(s[0], b));
      ValueOfSymbol(Third(b, c));
      ValueOfSymbol(Fourth(c));
      if |s| == 1 {
        assert Encode(s)[2..] == ['=', '='] && s == [s[0]];
      } else if |s| == 2 {
        assert Encode(s)[3..] == ['='] && s == [s[0], s[1]];
      } else {
        DecodeOfEncode(s[3..]);
        assert Encode(s)[4..] == Encode(s[3..]);
        assert s == [s[0], s[1], s[2]] + s[3..];
      }
    }
  }

  /** And what it accepts is exactly what encoding produces. */
  lemma {:induction false} EncodeOfDecode(t: string)
    ensures Decode(t).Some? ==> Encode(Decode(t).value) == t
  {
    hide Symbol, Value, First, Second, Third, Fourth, ByteA, ByteB, ByteC;
    if Decode(t).Some? && t != "" {
      SymbolOfValue(t[0]);
      SymbolOfValue(t[1]);
      SymbolOfValue(t[2]);
      SymbolOfValue(t[3]);
      var x, y := Value(t[0]).value, Value(t[1]).value;
      var r := Decode(t).value;
      if Value(t[2]).None? {
        SplitJoin(x, y, 0, 0);
        assert t == t[..2] + t[2..];
      } else if Value(t[3]).None? {
        SplitJoin(x, y, Value(t[2]).value, 0);
        assert t == t[..3] + t[3..];
      } else {
        SplitJoin(x, y, Value(t[2]).value, Value(t[3]).value);
        EncodeOfDecode(t[4..]);
        assert r[3..] == Decode(t[4..]).value;
        assert t == t[..4] + t[4..];
      }
    }
  }

  /** The bits of a group go to its sextets in order, the most significant first. */
  lemma GroupBits(a: byte, b: byte, c: byte)
    ensures First(a) as int * 0x4_0000 + Second(a, b) as int * 0x1000 + Third(b, c) as int * 0x40 + Fourth(c)
         == a as int * 0x1_0000 + b as int * 0x100 + c
  {
  }

  /** Three bytes become the symbols of the four sextets of their 24 bits; one or two are filled up with zero bits
      and padded. */
  lemma EncodeExactly(s: bytes, x: sextet, y: sextet, z: sextet, w: sextet)
    requires s != []
    requires x as int * 0x4_0000 + y as int * 0x1000 + z as int * 0x40 + w
          == s[0] as int * 0x1_0000 + (if |s| > 1 then s[1] as int * 0x100 else 0) + if |s| > 2 then s[2] else 0
    ensures |s| == 1 ==> Encode(s) == [Symbol(x), Symbol(y), '=', '=']
    ensures |s| == 2 ==> Encode(s) == [Symbol(x), Symbol(y), Symbol(z), '=']
    ensures |s| > 2 ==> Encode(s) == [Symbol(x), Symbol(y), Symbol(z), Symbol(w)] + Encode(s[3..])
  {
    var b: byte, c: byte := if |s| > 1 then s[1] else 0, if |s| > 2 then s[2] else 0;
    GroupBits(s[0], b, c);
    SextetsUnique(x, y, z, w, First(s[0]), Second(s[0], b), Third(b, c), Fourth(c));
    hide Symbol, First, Second, Third, Fourth;
  }

  lemma SextetsUnique(x: sextet, y: sextet, z: sextet, w: sextet, a: sextet, b: sextet, c: sextet, d: sextet)
    requires x as int * 0x4_0000 + y as int * 0x1000 + z as int * 0x40 + w
          == a as int * 0x4_0000 + b as int * 0x1000 + c as int * 0x40 + d
    ensures x == a && y == b && z == c && w == d
  {
  }

  /** The vectors of section 10 of RFC 4648 for "f", "fo" and "foo". */
  lemma TestVectors()
    ensures Encode([0x66]) == "Zg==" && Encode([0x66, 0x6f]) == "Zm8=" && Encode([0x66, 0x6f, 0x6f]) == "Zm9v"
  {
    EncodeExactly([0x66], 25, 32, 0, 0);
    EncodeExactly([0x66, 0x6f], 25, 38, 60, 0);
    EncodeExactly([0x66, 0x6f, 0x6f], 25, 38, 61, 47);
    hide Encode;
    assert [0x66, 0x6f, 0x6f][3..] == [] && Encode([]) == "" by { EncodeNothing(); }
    SymbolIs(25);
    SymbolIs(32);
    SymbolIs(38);
    SymbolIs(47);
    SymbolIs(60);
    SymbolIs(61);
    hide Symbol;
  }

  lemma EncodeNothing()
    ensures Encode([]) == ""
  {
  }

  /** `val` is a 32-bit int: shifting drops the bits that leave it. */
  function Shift8(val: int32, low: byte): (r: int32)
    ensures (r - (val * 256 + low)) % 0x1_0000_0000 == 0
  {
    var x := (val * 256 + low) % 0x1_0000_0000;
    if x < 0x8000_0000 then x else x - 0x1_0000_0000
  }

  /** `val >> k`, rounding down. */
  function Shifted(val: int, k: nat): (r: int)
  {
    if k == 0 then val else Shifted(val, k - 1) / 2
  }

  /** `(val >> k) & 0x3F`. */
  function Bits(val: int, k: nat): (r: sextet)
  {
    Shifted(val, k) % 64
  }

  /** Only the last two bytes taken in can still be read off the accumulator. */
  predicate Holds(val: int, previous: byte, last: byte)
  {
    val % 65536 == previous * 256 + last
  }

  lemma Shift8Holds(val: int32, p: byte, last: byte, c: byte)
    requires Holds(val, p, last)
    ensures Holds(Shift8(val, c), last, c)
  {
    var x := val * 256 + c;
    var r := Shift8(val, c);
    var q := (r - x) / 0x1_0000_0000;
    assert r == x + q * 0x1_0000_0000;
    var h := val / 65536;
    assert val == h * 65536 + p * 256 + last;
    assert r == (h * 256 + p + q * 65536) * 65536 + last * 256 + c;
  }

  lemma Quarter(v: int, k: int, x: int)
    requires v == 4 * k + x
    ensures v / 4 == k + x / 4
  {
  }

  lemma LowSextet(v: int, k: int, x: sextet)
    requires v == 64 * k + x
    ensures v % 64 == x
  {
  }

  lemma BitsAre(val: int)
    ensures Bits(val, 0) == val % 64 && Bits(val, 2) == val / 4 % 64
    ensures Bits(val, 4) == val / 4 / 4 % 64 && Bits(val, 6) == val / 4 / 4 / 4 % 64
  {
    assert Shifted(val, 2) == val / 2 / 2 == val / 4;
    assert Shifted(val, 4) == Shifted(val, 2) / 2 / 2 == Shifted(val, 2) / 4;
    assert Shifted(val, 6) == Shifted(val, 4) / 2 / 2 == Shifted(val, 4) / 4;
  }

  lemma BitsRead(val: int, p: byte, last: byte)
    requires Holds(val, p, last)
    ensures Bits(val, 2) == First(last) && Bits(val, 0) == Fourth(last)
    ensures Bits(val, 4) == Second(p, last) && Bits(val, 6) == Third(p, last)
  {
    var h := val / 65536;
    assert val == h * 65536 + p * 256 + last;
    BitsAre(val);
    hide Bits;
    Quarter(val, h * 16384 + p * 64, last);
    Quarter(val / 4, h * 4096 + p * 16, last / 4);
    Quarter(val / 4 / 4, h * 1024 + p * 4, last / 4 / 4);
    LowSextet(val, h * 1024 + p * 4 + last / 64, last % 64);
    LowSextet(val / 4, h * 256 + p, last / 4);
    LowSextet(val / 4 / 4, h * 64 + p / 4, p % 4 * 16 + last / 16);
    LowSextet(val / 4 / 4 / 4, h * 16 + p / 16, p % 16 * 4 + last / 64);
  }

  /** The symbols of the current group that are already complete. */
  function Open(input: bytes, i: nat): (r: string)
    requires i <= |input|
  {
    if i % 3 == 0 then ""
    else if i % 3 == 1 then [Symbol(First(input[i - 1]))]
    else [Symbol(First(input[i - 2])), Symbol(Second(input[i - 2], input[i - 1]))]
  }

  predicate After(input: bytes, i: nat, out: string, done: string)
    requires i <= |input|
  {
    && out == done + Open(input, i)
    && |done| % 4 == 0
    && done + Encode(input[i - i % 3..]) == Encode(input)
  }

  /** `out` is the encoding of the groups before the current one, then its complete symbols. */
  ghost predicate Streaming(input: bytes, i: nat, out: string)
  {
    i <= |input| && exists done :: After(input, i, out, done)
  }

  lemma StreamingFirst(input: bytes, i: nat, out: string)
    requires Streaming(input, i, out) && i < |input| && i % 3 == 0
    ensures Streaming(input, i + 1, out + [Symbol(First(input[i]))])
  {
    hide Symbol, First, Second, Third, Fourth, Encode;
    var done :| After(input, i, out, done);
    assert After(input, i + 1, out + [Symbol(First(input[i]))], done);
  }

  lemma StreamingSecond(input: bytes, i: nat, out: string)
    requires Streaming(input, i, out) && i < |input| && i % 3 == 1
    ensures Streaming(input, i + 1, out + [Symbol(Second(input[i - 1], input[i]))])
  {
    hide Symbol, First, Second, Third, Fourth, Encode;
    var done :| After(input, i, out, done);
    assert After(input, i + 1, out + [Symbol(Second(input[i - 1], input[i]))], done);
  }

  /** The third byte completes the group. */
  lemma StreamingThird(input: bytes, i: nat, out: string, third: char, fourth: char)
    requires 2 <= i < |input| && i % 3 == 2
    requires third == Symbol(Third(input[i - 1], input[i])) && fourth == Symbol(Fourth(input[i]))
    requires Streaming(input, i, out)
    ensures Streaming(input, i + 1, out + [third] + [fourth])
  {
    hide Symbol, First, Second, Third, Fourth, Encode;
    var done :| After(input, i, out, done);
    var group := Open(input, i) + [third] + [fourth];
    EncodeGroup(input, i);
    AppendTwo(done, Open(input, i), third, fourth);
    hide Open;
    ConcatAssoc(done, group, Encode(input[i + 1..]));
    GroupClosed(input, i + 1, done + group);
  }

  lemma EncodeGroup(input: bytes, i: nat)
    requires 2 <= i < |input| && i % 3 == 2
    ensures var group := Open(input, i) + [Symbol(Third(input[i - 1], input[i]))] + [Symbol(Fourth(input[i]))];
            |group| == 4 && Encode(input[i - 2..]) == group + Encode(input[i + 1..])
  {
    hide Symbol, First, Second, Third, Fourth;
    assert input[i - 2..][3..] == input[i + 1..];
  }

  lemma AppendTwo(done: string, open: string, third: char, fourth: char)
    ensures (done + open) + [third] + [fourth] == done + (open + [third] + [fourth])
  {
  }

  lemma GroupClosed(input: bytes, i: nat, out: string)
    requires i <= |input| && i % 3 == 0 && |out| % 4 == 0 && out + Encode(input[i..]) == Encode(input)
    ensures Streaming(input, i, out)
  {
    hide Encode;
    assert out == out + Open(input, i);
    assert After(input, i, out, out);
  }

  lemma StreamingEnds(input: bytes, out: string)
    requires Streaming(input, |input|, out)
    ensures |out| % 4 == |input| % 3
    ensures |input| % 3 == 0 ==> out == Encode(input)
    ensures |input| % 3 == 1 ==> out + [Symbol(Second(input[|input| - 1], 0))] + ['='] + ['='] == Encode(input)
    ensures |input| % 3 == 2 ==> out + [Symbol(Third(input[|input| - 1], 0))] + ['='] == Encode(input)
  {
    hide Symbol, First, Second, Third, Fourth, Encode;
    var n := |input|;
    var done :| After(input, n, out, done);
    EncodeRest(input, n);
    OpenLength(input, n);
    hide Open, Streaming;
    if n % 3 == 0 {
      assert done + "" == done;
    } else if n % 3 == 1 {
      Regroup(done, Open(input, n), Symbol(Second(input[n - 1], 0)));
    } else if n % 3 == 2 {
      Regroup(done, Open(input, n), Symbol(Third(input[n - 1], 0)));
    }
  }

  lemma OpenLength(input: bytes, i: nat)
    requires i <= |input|
    ensures |Open(input, i)| == i % 3
  {
  }

  lemma Regroup(done: string, open: string, c: char)
    ensures (done + open) + [c] + ['='] == done + (open + [c, '='])
    ensures (done + open) + [c] + ['='] + ['='] == done + (open + [c, '=', '='])
  {
  }

  /** The encoding of the bytes left over after the last whole group. */
  lemma EncodeRest(input: bytes, n: nat)
    requires n == |input|
    ensures n % 3 == 0 ==> Encode(input[n..]) == ""
    ensures n % 3 == 1 ==> Encode(input[n - 1..]) == Open(input, n) + [Symbol(Second(input[n - 1], 0)), '=', '=']
    ensures n % 3 == 2 ==> Encode(input[n - 2..]) == Open(input, n) + [Symbol(Third(input[n - 1], 0)), '=']
  {
    hide Symbol, First, Second, Third, Fourth;
  }

  method Base64Encode(input: bytes) returns (out: string)
    ensures out == Encode(input)
  {
    hide Symbol, First, Second, Third, Fourth, Encode, Streaming, Shift8, Holds, Bits;
    out := "";
    var val: int32 := 0;
    var valb := -6;
    var i := 0;
    ghost var previous: byte, last: byte := 0, 0;
    assert Streaming(input, 0, "") by { StreamingStarts(input); }
    assert Holds(0, 0, 0) by { HoldsNothing(); }
    while i < |input|
      invariant Streaming(input, i, out) && i <= |input|
      invariant valb == i % 3 * 2 - 6
      invariant Holds(val, previous, last)
      invariant i > 0 ==> last == input[i - 1]
      invariant i > 1 ==> previous == input[i - 2]
    {
      if i % 3 == 0 {
        StreamingFirst(input, i, out);
      } else if i % 3 == 1 {
        StreamingSecond(input, i, out);
      } else {
        StreamingThird(input, i, out, Symbol(Third(input[i - 1], input[i])), Symbol(Fourth(input[i])));
      }
      Shift8Holds(val, previous, last, input[i]);
      val := Shift8(val, input[i]);
      previous, last := last, input[i];
      BitsRead(val, previous, last);
      valb := valb + 8;
      ghost var before := out;
      while valb >= 0
        invariant (valb == i % 3 * 2 + 2 && out == before)
               || (valb == i % 3 * 2 - 4 && out == before + [Symbol(Bits(val, i % 3 * 2 + 2))])
               || (valb == -6 && i % 3 == 2 && out == before + [Symbol(Bits(val, 6))] + [Symbol(Bits(val, 0))])
        decreases valb
      {
        out := out + [Symbol(Bits(val, valb))];
        valb := valb - 6;
      }
      i := i + 1;
    }
    StreamingEnds(input, out);
    if valb > -6 {
      Shift8Holds(val, previous, last, 0);
      BitsRead(Shift8(val, 0), last, 0);
      out := out + [Symbol(Bits(Shift8(val, 0), valb + 8))];
    }
    ghost var unpadded := out;
    while |out| % 4 != 0
      invariant |unpadded| <= |out| <= |unpadded| + 2
      invariant |out| % 4 != 1
      invariant out == unpadded || out == unpadded + ['='] || out == unpadded + ['='] + ['=']
      decreases (4 - |out| % 4) % 4
    {
      out := out + ['='];
    }
  }

  lemma StreamingStarts(input: bytes)
    ensures Streaming(input, 0, "")
  {
    assert input[0..] == input && "" + Encode(input) == Encode(input) && "" == "" + Open(input, 0);
    assert After(input, 0, "", "");
  }

  lemma HoldsNothing()
    ensures Holds(0, 0, 0)
  {
  }
}
