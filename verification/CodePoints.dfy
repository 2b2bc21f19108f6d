/**
  The evaluator's string order. JavaScript strings are UTF-16 code units; CEL orders strings by their
  UTF-8 bytes (sections 1 and 3 of RFC 3629), which the loop reproduces by comparing code points.
*/
module CodePoints {
  import opened Texts

  type Unit = u: int | 0 <= u < 0x10000

  predicate IsHigh(u: Unit) {
    0xD800 <= u < 0xDC00
  }

  predicate IsLow(u: Unit) {
    0xDC00 <= u < 0xE000
  }

  predicate IsScalar(x: int) {
    0 <= x <= 0x10FFFF && !(0xD800 <= x < 0xE000)
  }

  /** JavaScript's codePointAt: a surrogate pair reads as one code point, anything else as its unit. */
  function CodePointAt(s: seq<Unit>, i: nat): (x: int)
    requires i < |s|
    ensures 0 <= x <= 0x10FFFF
  {
    if IsHigh(s[i]) && i + 1 < |s| && IsLow(s[i + 1]) then
      var high: int, low: int := s[i], s[i + 1];
      0x10000 + (high - 0xD800) * 0x400 + (low - 0xDC00)
    else s[i]
  }

  function Width(x: int): nat {
    if x > 0xFFFF then 2 else 1
  }

  function Decode(s: seq<Unit>): (codes: seq<int>) {
    if s == [] then [] else [CodePointAt(s, 0)] + Decode(s[Width(CodePointAt(s, 0))..])
  }

  /** Negative, zero or positive as `a` orders before, with or after `b`, element by element. */
  function Order(a: seq<int>, b: seq<int>): int {
    if a == [] then (if b == [] then 0 else -1)
    else if b == [] then 1
    else if a[0] != b[0] then (if a[0] < b[0] then -1 else 1)
    else Order(a[1..], b[1..])
  }

  method CompareCodePoints(a: seq<Unit>, b: seq<Unit>) returns (order: int)
    ensures order == Order(Decode(a), Decode(b))
  {
    var i: nat, j: nat := 0, 0;
    while i < |a| && j < |b|
      invariant i <= |a| && j <= |b|
      invariant Order(Decode(a), Decode(b)) == Order(Decode(a[i..]), Decode(b[j..]))
      decreases |a| - i
    {
      var x, y := CodePointAt(a, i), CodePointAt(b, j);
      DecodeStep(a, i);
      DecodeStep(b, j);
      if x != y {
        return if x < y then -1 else 1;
      }
      i := i + Width(x);
      j := j + Width(y);
    }
    order := (if i < |a| then 1 else 0) - (if j < |b| then 1 else 0);
  }

  lemma DecodeStep(s: seq<Unit>, i: nat)
    requires i < |s|
    ensures var x := CodePointAt(s, i);
      i + Width(x) <= |s| && Decode(s[i..]) == [x] + Decode(s[i + Width(x)..])
  {
    var x := CodePointAt(s, i);
    assert CodePointAt(s[i..], 0) == x;
    assert s[i..][Width(x)..] == s[i + Width(x)..];
  }

  // ----- a strict total order -----

  lemma {:induction false} OrderReversed(a: seq<int>, b: seq<int>)
    ensures Order(b, a) == -Order(a, b)
    decreases |a|
  {
    if a != [] && b != [] {
      OrderReversed(a[1..], b[1..]);
    }
  }

  lemma {:induction false} OrderZero(a: seq<int>, b: seq<int>)
    ensures Order(a, b) == 0 <==> a == b
    decreases |a|
  {
    if a != [] && b != [] {
      OrderZero(a[1..], b[1..]);
      assert a == [a[0]] + a[1..] && b == [b[0]] + b[1..];
    }
  }

  lemma {:induction false} OrderTransitive(a: seq<int>, b: seq<int>, c: seq<int>)
    requires Order(a, b) < 0 && Order(b, c) < 0
    ensures Order(a, c) < 0
    decreases |a|
  {
    if a != [] && b != [] && c != [] && a[0] == b[0] == c[0] {
      OrderTransitive(a[1..], b[1..], c[1..]);
    }
  }

  /** UTF-16 of a sequence of code points. */
  function Units(codes: seq<int>): seq<Unit>
    requires forall i | 0 <= i < |codes| :: 0 <= codes[i] <= 0x10FFFF
  {
    if codes == [] then []
    else
      var x := codes[0];
      var pair := if x > 0xFFFF then [0xD800 + (x - 0x10000) / 0x400, 0xDC00 + (x - 0x10000) % 0x400] else [x];
      pair + Units(codes[1..])
  }

  /** Nothing is lost by decoding, unpaired surrogates included. */
  lemma {:induction false} UnitsDecode(s: seq<Unit>)
    ensures forall i | 0 <= i < |Decode(s)| :: 0 <= Decode(s)[i] <= 0x10FFFF
    ensures Units(Decode(s)) == s
    decreases |s|
  {
    if s != [] {
      var x := CodePointAt(s, 0);
      UnitsDecode(s[Width(x)..]);
      assert Decode(s)[1..] == Decode(s[Width(x)..]);
      assert s == s[..Width(x)] + s[Width(x)..];
    }
  }

  /** The comparison orders any two strings one way only, and ties exactly equal strings. */
  lemma TotalOrder(a: seq<Unit>, b: seq<Unit>)
    ensures Order(Decode(a), Decode(b)) == 0 <==> a == b
    ensures Order(Decode(b), Decode(a)) == -Order(Decode(a), Decode(b))
  {
    OrderZero(Decode(a), Decode(b));
    OrderReversed(Decode(a), Decode(b));
    UnitsDecode(a);
    UnitsDecode(b);
  }

  // ----- UTF-8 -----

  /** How many continuation bytes a code point takes. */
  function Extra(x: int): nat {
    if x < 0x80 then 0 else if x < 0x800 then 1 else if x < 0x10000 then 2 else 3
  }

  /** The bits of a lead byte that count its continuation bytes. */
  function Marker(extra: nat): int {
    if extra == 0 then 0 else if extra == 1 then 0xC0 else if extra == 2 then 0xE0 else 0xF0
  }

  /** Section 3 of RFC 3629. */
  function Utf8(x: int): (bytes: seq<int>)
    requires 0 <= x
    ensures |bytes| == 1 + Extra(x)
  {
    [Marker(Extra(x)) + Lead(x, Extra(x))] + Continuation(x, Extra(x))
  }

  /** `x` without its last `n` groups of six bits. */
  function Lead(x: int, n: nat): (lead: int)
    requires 0 <= x
    ensures 0 <= lead
  {
    if n == 0 then x else Lead(x / 64, n - 1)
  }

  /** The last `n` continuation bytes, six bits each. */
  function Continuation(x: int, n: nat): (bytes: seq<int>)
    requires 0 <= x
    ensures |bytes| == n
  {
    if n == 0 then [] else Continuation(x / 64, n - 1) + [0x80 + x % 64]
  }

  predicate InRange(codes: seq<int>) {
    forall i | 0 <= i < |codes| :: 0 <= codes[i] <= 0x10FFFF
  }

  function Encode(codes: seq<int>): seq<int>
    requires InRange(codes)
  {
    if codes == [] then [] else Utf8(codes[0]) + Encode(codes[1..])
  }

  /** Two encodings differ first at a byte that orders them, so neither is a prefix of the other. */
  ghost predicate Before(u: seq<int>, v: seq<int>, k: nat) {
    k < |u| && k < |v| && u[k] < v[k] && forall i | 0 <= i < k :: u[i] == v[i]
  }

  /** The lead and then the continuation bytes order two code points of one length. */
  lemma {:induction false} SameLengthBefore(base: int, x: int, y: int, n: nat) returns (k: nat)
    requires 0 <= x < y
    ensures Before([base + Lead(x, n)] + Continuation(x, n), [base + Lead(y, n)] + Continuation(y, n), k)
    decreases n
  {
    if n == 0 {
      k := 0;
    } else {
      var u := [base + Lead(x / 64, n - 1)] + Continuation(x / 64, n - 1);
      var v := [base + Lead(y / 64, n - 1)] + Continuation(y / 64, n - 1);
      assert [base + Lead(x, n)] + Continuation(x, n) == u + [0x80 + x % 64];
      assert [base + Lead(y, n)] + Continuation(y, n) == v + [0x80 + y % 64];
      if x / 64 == y / 64 {
        k := n;
        assert x % 64 < y % 64;
      } else {
        k := SameLengthBefore(base, x / 64, y / 64, n - 1);
      }
    }
  }

  /** A lead byte keeps within its marker's range. */
  lemma LeadInRange(x: int)
    requires 0 <= x < 0x10000
    ensures Marker(Extra(x)) + Lead(x, Extra(x)) < Marker(Extra(x) + 1)
  {
    assert Lead(x / 64, 0) == x / 64 && Lead(x, 1) == Lead(x / 64, 0);
    assert Lead(x / 64 / 64, 0) == x / 64 / 64 && Lead(x / 64, 1) == Lead(x / 64 / 64, 0);
    assert Lead(x, 2) == Lead(x / 64, 1);
  }

  lemma Utf8Before(x: int, y: int) returns (k: nat)
    requires 0 <= x < y
    ensures Before(Utf8(x), Utf8(y), k)
  {
    if Extra(x) == Extra(y) {
      k := SameLengthBefore(Marker(Extra(x)), x, y, Extra(x));
    } else {
      k := 0;
      LeadInRange(x);
    }
  }

  lemma {:induction false} BeforeOrders(u: seq<int>, v: seq<int>, k: nat, s: seq<int>, t: seq<int>)
    requires Before(u, v, k)
    ensures Order(u + s, v + t) == -1
    decreases k
  {
    if k > 0 {
      assert (u + s)[1..] == u[1..] + s && (v + t)[1..] == v[1..] + t;
      BeforeOrders(u[1..], v[1..], k - 1, s, t);
    }
  }

  lemma {:induction false} CommonPrefix(u: seq<int>, s: seq<int>, t: seq<int>)
    ensures Order(u + s, u + t) == Order(s, t)
    decreases |u|
  {
    if u == [] {
      assert u + s == s && u + t == t;
    } else {
      assert (u + s)[1..] == u[1..] + s && (u + t)[1..] == u[1..] + t;
      CommonPrefix(u[1..], s, t);
    }
  }

  /** UTF-8 preserves the order of code points. */
  lemma {:induction false} EncodeOrders(a: seq<int>, b: seq<int>)
    requires InRange(a) && InRange(b)
    ensures Order(Encode(a), Encode(b)) == Order(a, b)
    decreases |a|
  {
    if a != [] && b != [] {
      var s, t := Encode(a[1..]), Encode(b[1..]);
      if a[0] == b[0] {
        CommonPrefix(Utf8(a[0]), s, t);
        EncodeOrders(a[1..], b[1..]);
      } else if a[0] < b[0] {
        var k := Utf8Before(a[0], b[0]);
        BeforeOrders(Utf8(a[0]), Utf8(b[0]), k, s, t);
      } else {
        var k := Utf8Before(b[0], a[0]);
        BeforeOrders(Utf8(b[0]), Utf8(a[0]), k, t, s);
        OrderReversed(Encode(b), Encode(a));
      }
    }
  }

  predicate PairedAt(s: seq<Unit>, i: nat)
    requires i < |s|
  {
    (IsHigh(s[i]) ==> i + 1 < |s| && IsLow(s[i + 1])) && (IsLow(s[i]) ==> i > 0 && IsHigh(s[i - 1]))
  }

  /** Every high surrogate is followed by a low one, and every low one follows a high one. */
  predicate WellFormed(s: seq<Unit>) {
    forall i | 0 <= i < |s| :: PairedAt(s, i)
  }

  lemma {:induction false} WellFormedDecodes(s: seq<Unit>)
    requires WellFormed(s)
    ensures forall i | 0 <= i < |Decode(s)| :: IsScalar(Decode(s)[i])
    decreases |s|
  {
    if s != [] {
      var x := CodePointAt(s, 0);
      var rest := s[Width(x)..];
      assert PairedAt(s, 0);
      forall i | 0 <= i < |rest| ensures PairedAt(rest, i) {
        assert PairedAt(s, Width(x) + i) && PairedAt(s, i);
      }
      WellFormedDecodes(rest);
    }
  }

  /** On well-formed strings the comparison is the order of their UTF-8 bytes. */
  lemma ComparesUtf8(a: seq<Unit>, b: seq<Unit>)
    requires WellFormed(a) && WellFormed(b)
    ensures InRange(Decode(a)) && InRange(Decode(b))
    ensures Order(Encode(Decode(a)), Encode(Decode(b))) == Order(Decode(a), Decode(b))
  {
    WellFormedDecodes(a);
    WellFormedDecodes(b);
    EncodeOrders(Decode(a), Decode(b));
  }

  /** JavaScript's own `<` would order an astral character before U+E000. */
  lemma UnitOrderDiffers()
    ensures var astral: seq<Unit>, private: seq<Unit> := [0xD83D, 0xDE00], [0xE000];
      WellFormed(astral) && WellFormed(private) &&
      Order(astral, private) == -1 && Order(Decode(astral), Decode(private)) == 1
  {
    var astral: seq<Unit>, private: seq<Unit> := [0xD83D, 0xDE00], [0xE000];
    assert PairedAt(astral, 0) && PairedAt(astral, 1) && PairedAt(private, 0);
    assert CodePointAt(astral, 0) == 0x1F600 && CodePointAt(private, 0) == 0xE000;
  }

  /** The models' strings are sequences of code points, in the same order. */
  lemma {:induction false} LexOrderIsOrder(a: string, b: string)
    ensures LexOrder(a, b) == Order(Codes(a), Codes(b))
    decreases |a|
  {
    if a != [] && b != [] {
      LexOrderIsOrder(a[1..], b[1..]);
      assert Codes(a)[1..] == Codes(a[1..]) && Codes(b)[1..] == Codes(b[1..]);
    }
  }

  function Codes(s: string): (codes: seq<int>)
    ensures |codes| == |s| && forall i | 0 <= i < |s| :: codes[i] == s[i] as int
  {
    seq(|s|, i requires 0 <= i < |s| => s[i] as int)
  }
}
