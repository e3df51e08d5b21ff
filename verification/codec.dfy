/** The base-77 token codec: `Base77` (cipher/cipher.go:43-71, also `toBase77` in
    main.go:81-109), `ToBase10` (cipher/cipher.go:83-111) and `FromBase77`
    (cipher/cipher.go:113-128). Tokens are little-endian: the first glyph is the units digit. */
module Codec {
  import opened Types
  import opened Alphabet
  import Arith
  import Packing

  /** A base-77 digit value. */
  type digit = d: nat | d < 77

  /** 77^n. `math.Pow(77, m)` for m <= 8 is exact in float64 because 77^8 < 2^53, so the
      source's floating-point powers are these integers. */
  function Pow77(n: nat): (p: nat)
    ensures p >= 1
  {
    if n == 0 then 1 else 77 * Pow77(n - 1)
  }

  lemma {:induction false} PowMonotone(a: nat, b: nat)
    requires a <= b
    ensures Pow77(a) <= Pow77(b)
    decreases b
  {
    if a < b {
      PowMonotone(a, b - 1);
    }
  }

  lemma {:induction false} PowAdd(a: nat, b: nat)
    ensures Pow77(a + b) == Pow77(a) * Pow77(b)
    decreases b
  {
    if b > 0 {
      PowAdd(a, b - 1);
      assert Pow77(a + b) == 77 * Pow77(a + b - 1);
    }
  }

  /** The base-77 digit of `v` at place `p` (weight 77^p). */
  function Digit(v: nat, p: nat): digit
  {
    v / Pow77(p) % 77
  }

  /** The little-endian numeric value of a digit string: digit k has weight 77^k. */
  function Value(ds: seq<digit>): nat
  {
    if ds == [] then 0 else ds[0] + 77 * Value(ds[1..])
  }

  /** The glyph string for a digit string, position by position. */
  function Glyphs(ds: seq<digit>): (s: seq<byte>)
    ensures |s| == |ds|
    ensures forall k :: 0 <= k < |ds| ==> s[k] == Symbol(ds[k])
  {
    if ds == [] then [] else [Symbol(ds[0])] + Glyphs(ds[1..])
  }

  /** The digit each byte of a token stands for, position by position. */
  function Indices(s: seq<byte>): (ds: seq<digit>)
    ensures |ds| == |s|
    ensures forall k :: 0 <= k < |s| ==> ds[k] == IndexOfEncodingChar(s[k])
  {
    if s == [] then [] else [IndexOfEncodingChar(s[0])] + Indices(s[1..])
  }

  /** Reading glyphs back yields the digits they were written for. */
  lemma IndicesOfGlyphs(ds: seq<digit>)
    ensures Indices(Glyphs(ds)) == ds
  {
    forall k | 0 <= k < |ds|
      ensures Indices(Glyphs(ds))[k] == ds[k]
    {
      IndexOfSymbol(ds[k]);
    }
  }

  // ---------------------------------------------------------------------------------------
  // Encoding

  /** The non-zero digits of `v` at places `p` through 8, in increasing place order: the glyphs
      the loop of `Base77` collects (it walks places 8 down to 1 and prepends each digit it
      emits, so the result reads upwards). */
  function HigherDigits(v: nat, p: nat): seq<digit>
    requires 1 <= p <= 9
    decreases 9 - p
  {
    if p == 9 then []
    else (if Digit(v, p) == 0 then [] else [Digit(v, p)]) + HigherDigits(v, p + 1)
  }

  /** The digit string of the token of `v`: nothing for 0; otherwise the units digit followed by
      the non-zero higher digits. Zero digits above the units place are dropped. */
  function TokenDigits(v: nat): seq<digit>
  {
    if v == 0 then [] else [Digit(v, 0)] + HigherDigits(v, 1)
  }

  /** `(*EncodedReference).Base77` for a receiver that packs to `v`. The digit for place 77^8 is
      `v / 77^8` without a remainder; indexing the alphabet with it panics once it reaches 77,
      that is, exactly when v >= 77^9. */
  function Base77(v: u64): Checked<seq<byte>>
  {
    if v >= Pow77(9) then IndexPanic else Ok(Glyphs(TokenDigits(v)))
  }

  /** `(*EncodedReference).Base77`: the token of an allocation, written from its packed value. */
  function TokenOf(e: EncodedReference): Checked<seq<byte>>
  {
    Base77(Packing.Uint64(Some(e)))
  }

  /** A token is made of alphabet glyphs only, so it never holds the '/' the decoder splits on. */
  lemma TokenHasNoSlash(v: u64)
    requires Base77(v).Ok?
    ensures forall k :: 0 <= k < |Base77(v).value| ==> IsSymbol(Base77(v).value[k]) && Base77(v).value[k] != '/'
  {
    var ds := TokenDigits(v);
    forall k | 0 <= k < |ds|
      ensures IsSymbol(Glyphs(ds)[k]) && Glyphs(ds)[k] != '/'
    {
      SlashIsNoSymbol(ds[k]);
    }
  }

  lemma PlaceEightPanics(v: nat)
    ensures v / Pow77(8) >= 77 <==> v >= Pow77(9)
    ensures v < Pow77(9) ==> Digit(v, 8) == v / Pow77(8)
  {
    var p8 := Pow77(8);
    assert Pow77(9) == 77 * p8;
    Arith.DivDiv(v, p8, 77);
    if v < Pow77(9) {
      Arith.DivBelow(v, Pow77(9));
      Arith.DivBelow(v / p8, 77);
    } else {
      Arith.MulMonotone(77, v / p8 + 0, p8);
    }
  }

  /** `(*EncodedReference).Base77` as written: places 77^8 down to 77^1 are visited with the
      quotient/remainder steps of the source, each non-zero digit is prepended, the walk stops
      once the remainder is 0, and the units glyph (or 'a' when only the units digit is 0) is
      prepended last. The result is the declarative token of `Base77`, including the panic. */
  method Base77Loop(v: u64) returns (r: Checked<seq<byte>>)
    ensures r == Base77(v)
  {
    var i: nat := v;
    var s: seq<byte> := [];
    var m: nat := 8;
    while m > 0
      invariant m <= 8 && Walked(v, m, i, s)
      decreases m
    {
      var c := Pow77(m);
      LoopStep(v, m, i, s);
      if i >= c {
        var d := i / c;
        if d >= 77 {
          return IndexPanic;
        }
        i := i - d * c;
        s := [Symbol(d)] + s;
      } else if i <= 0 {
        break;
      }
      m := m - 1;
    }
    LoopExit(v, m, i);
    FinishToken(v, i, s);
    if i > 0 {
      r := Ok([Symbol(i)] + s);
    } else if |s| > 0 {
      r := Ok([Symbol(0)] + s);
    } else {
      r := Ok(s);
    }
  }

  /** The state of the walk before visiting place m: the remainder below 77^(m+1) (the value
      itself before the first pass) and the glyphs of the non-zero digits above place m. */
  ghost predicate Walked(v: nat, m: nat, i: nat, s: seq<byte>)
    requires m <= 8
  {
    && (m < 8 ==> v < Pow77(9))
    && i == (if m == 8 then v else v % Pow77(m + 1))
    && s == Glyphs(HigherDigits(v, m + 1))
  }

  lemma GlyphsCons(d: digit, ds: seq<digit>)
    ensures Glyphs([d] + ds) == [Symbol(d)] + Glyphs(ds)
  {
    assert ([d] + ds)[1..] == ds;
  }

  /** The units glyph completes the token: the remainder itself when non-zero, 'a' when only the
      units digit is 0, and nothing at all for the value 0. */
  lemma FinishToken(v: nat, i: nat, s: seq<byte>)
    requires v < Pow77(9) && i < 77 && i == Digit(v, 0)
    requires s == Glyphs(HigherDigits(v, 1))
    requires v == 0 <==> (i == 0 && HigherDigits(v, 1) == [])
    ensures Base77(v) == Ok(if i > 0 then [Symbol(i)] + s else if |s| > 0 then [Symbol(0)] + s else s)
  {
    if v != 0 {
      GlyphsCons(i, HigherDigits(v, 1));
    }
  }

  /** One pass of the loop at place m: the quotient exceeds the alphabet only at place 8 and
      only for values of at least 77^9; otherwise a non-zero quotient is the digit at place m,
      which is prepended, and subtracting it leaves the remainder modulo 77^m. */
  lemma LoopStep(v: nat, m: nat, i: nat, s: seq<byte>)
    requires 1 <= m <= 8 && Walked(v, m, i, s)
    ensures 0 <= i / Pow77(m)
    ensures i - i / Pow77(m) * Pow77(m) == i % Pow77(m)
    ensures i / Pow77(m) >= 77 <==> v >= Pow77(9)
    ensures i >= Pow77(m) && i / Pow77(m) < 77 ==>
              Walked(v, m - 1, i - i / Pow77(m) * Pow77(m), [Symbol(i / Pow77(m))] + s)
    ensures 0 < i < Pow77(m) ==> Walked(v, m - 1, i, s)
  {
    Arith.DivNonneg(i, Pow77(m));
    QuotientStep(i, Pow77(m));
    PlaceEightPanics(v);
    if v < Pow77(9) {
      Arith.DivBelow(v, Pow77(9));
      assert i == v % Pow77(m + 1);
      RemainderDigit(v, m);
      QuotientStep(i, Pow77(m));
      if i >= Pow77(m) {
        GlyphsCons(i / Pow77(m), HigherDigits(v, m + 1));
      } else {
        assert HigherDigits(v, m) == [] + HigherDigits(v, m + 1);
      }
    }
  }

  lemma QuotientStep(i: nat, c: nat)
    requires c > 0
    ensures i - i / c * c == i % c
    ensures i >= c <==> i / c != 0
  {
    if i < c {
      Arith.DivBelow(i, c);
    } else {
      Arith.DivModUnique(i, c, i / c, i % c);
    }
  }

  /** Where the loop stops, the remainder is the units digit and the places it did not visit
      hold zero digits. */
  lemma LoopExit(v: nat, m: nat, i: nat)
    requires m <= 8 && v < Pow77(9)
    requires i == if m == 8 then v else v % Pow77(m + 1)
    requires m == 0 || i == 0
    ensures i < 77 && i == Digit(v, 0)
    ensures HigherDigits(v, 1) == HigherDigits(v, m + 1)
    ensures v == 0 <==> (i == 0 && HigherDigits(v, 1) == [])
  {
    Arith.DivBelow(v, Pow77(9));
    assert v % Pow77(m + 1) == i;
    if m > 0 {
      ZeroRemainderDigits(v, m + 1);
      HigherSkip(v, 1, m + 1);
    }
    if v == 0 {
      ZeroRemainderDigits(v, 9);
      HigherSkip(v, 1, 9);
    } else if i == 0 && HigherDigits(v, 1) == [] {
      OnlyZeroHasNoDigits(v);
    }
  }

  /** The remainder modulo 77^(m+1) holds the digit at place m as its quotient by 77^m. */
  lemma RemainderDigit(v: nat, m: nat)
    ensures (v % Pow77(m + 1)) / Pow77(m) == Digit(v, m)
    ensures (v % Pow77(m + 1)) % Pow77(m) == v % Pow77(m)
  {
    assert Pow77(m + 1) == Pow77(m) * 77;
    Arith.ModOfMod(v, Pow77(m), 77);
  }

  /** A value divisible by 77^n has zero digits at every place below n. */
  lemma ZeroRemainderDigits(v: nat, n: nat)
    requires v % Pow77(n) == 0
    ensures forall q :: 0 <= q < n ==> Digit(v, q) == 0
  {
    forall q | 0 <= q < n
      ensures Digit(v, q) == 0
    {
      ZeroDigitBelow(v, n, q);
    }
  }

  lemma ZeroDigitBelow(v: nat, n: nat, q: nat)
    requires v % Pow77(n) == 0 && q < n
    ensures Digit(v, q) == 0
  {
    var a, b := Pow77(q + 1), Pow77(n - q - 1);
    PowAdd(q + 1, n - q - 1);
    assert Pow77(n) == a * b;
    Arith.ModOfMod(v, a, b);
    assert v % a == 0;
    RemainderDigit(v, q);
  }

  /** Zero digits contribute no glyphs. */
  lemma {:induction false} HigherSkip(v: nat, p: nat, q: nat)
    requires 1 <= p <= q <= 9
    requires forall k :: p <= k < q ==> Digit(v, k) == 0
    ensures HigherDigits(v, p) == HigherDigits(v, q)
    decreases q - p
  {
    if p < q {
      HigherSkip(v, p + 1, q);
    }
  }

  /** Below 77^(n+1), a zero digit at place n means the value is below 77^n. */
  lemma DropTopDigit(v: nat, n: nat)
    requires v < Pow77(n + 1)
    ensures v / Pow77(n) < 77 && Digit(v, n) == v / Pow77(n)
    ensures Digit(v, n) == 0 ==> v < Pow77(n)
  {
    assert Pow77(n + 1) == Pow77(n) * 77;
    Arith.DivDiv(v, Pow77(n), 77);
    Arith.DivBelow(v, Pow77(n + 1));
    Arith.DivBelow(v / Pow77(n), 77);
  }

  /** A value below 77^9 whose token has no digits at all is 0. */
  lemma OnlyZeroHasNoDigits(v: nat)
    requires v < Pow77(9) && Digit(v, 0) == 0 && HigherDigits(v, 1) == []
    ensures v == 0
  {
    NoHigherDigits(v, 1);
    var n := 9;
    while n > 1
      invariant 1 <= n <= 9
      invariant v < Pow77(n)
    {
      DropTopDigit(v, n - 1);
      n := n - 1;
    }
    DropTopDigit(v, 0);
  }

  lemma {:induction false} NoHigherDigits(v: nat, p: nat)
    requires 1 <= p <= 9 && HigherDigits(v, p) == []
    ensures forall k :: p <= k < 9 ==> Digit(v, k) == 0
    decreases 9 - p
  {
    if p < 9 {
      NoHigherDigits(v, p + 1);
    }
  }

  /** Place values of the six digits `ToBase10` reads (the table `k` of the source). */
  const PlaceValues: seq<nat> := [1, 77, 5929, 456533, 35153041, 2706784157]

  /** One `if len(buf) > p { j += k[p] * indexOfEncodingChar(buf[p]) }` step. */
  function Term(buf: seq<byte>, p: nat): (t: nat)
    requires p < 6
    ensures t <= PlaceValues[p] * 76
  {
    if |buf| > p then
      Arith.MulBounded(PlaceValues[p], IndexOfEncodingChar(buf[p]), 76);
      PlaceValues[p] * IndexOfEncodingChar(buf[p])
    else 0
  }

  lemma PowSix()
    ensures Pow77(6) == 208422380089
  {
  }

  /** `ToBase10`: the first six bytes of a token as a little-endian base-77 numeral. Bytes past
      the sixth are ignored, so the result stays below 77^6 and the `uint64` sum never wraps. */
  function ToBase10(buf: seq<byte>): (j: u64)
    ensures j < Pow77(6)
    ensures |buf| == 0 ==> j == 0
  {
    PowSix();
    Term(buf, 5) + Term(buf, 4) + Term(buf, 3) + Term(buf, 2) + Term(buf, 1) + Term(buf, 0)
  }

  /** `FromBase77`: read a token and split the value into the four 16-bit fields. Since the
      value read is below 77^6 < 2^48, the page number always comes out as 0 and CharIndex
      as at most 48. */
  function FromBase77(s: seq<byte>): (e: EncodedReference)
    ensures e.reference.url == 0
    ensures e.charIndex <= 48
    ensures e == Packing.FromUint64(ToBase10(s))
  {
    var v := ToBase10(s);
    Arith.DivBelow(v, Packing.Pow48);
    Arith.DivDiv(v, Packing.Pow32, Packing.Pow16);
    Packing.FromUint64(v)
  }

  // ---------------------------------------------------------------------------------------
  // Reading tokens back

  function Min(a: nat, b: nat): nat
  {
    if a <= b then a else b
  }

  lemma {:induction false} ValueBound(ds: seq<digit>)
    ensures Value(ds) < Pow77(|ds|)
    decreases |ds|
  {
    if ds != [] {
      ValueBound(ds[1..]);
      Arith.MulMonotone(Value(ds[1..]) + 1, Pow77(|ds| - 1), 77);
    }
  }

  lemma {:induction false} ValueSnoc(ds: seq<digit>, d: digit)
    ensures Value(ds + [d]) == Value(ds) + d * Pow77(|ds|)
    decreases |ds|
  {
    if ds != [] {
      assert (ds + [d])[1..] == ds[1..] + [d];
      ValueSnoc(ds[1..], d);
    }
  }

  lemma PlaceValuesArePowers(p: nat)
    requires p < 6
    ensures PlaceValues[p] == Pow77(p)
  {
    if p == 0 {
    } else if p == 1 {
    } else if p == 2 {
    } else if p == 3 {
    } else if p == 4 {
    } else {
    }
  }

  /** The value of the digits of the first n bytes. */
  function PrefixValue(buf: seq<byte>, n: nat): nat
  {
    Value(Indices(buf[..Min(n, |buf|)]))
  }

  /** Each term of `ToBase10` adds the next byte's digit at its place value. */
  lemma TermStep(buf: seq<byte>, n: nat)
    requires n < 6
    ensures PrefixValue(buf, n + 1) == PrefixValue(buf, n) + Term(buf, n)
  {
    if n < |buf| {
      var pre := buf[..n];
      assert buf[..n + 1] == pre + [buf[n]];
      assert Indices(pre + [buf[n]]) == Indices(pre) + [IndexOfEncodingChar(buf[n])];
      ValueSnoc(Indices(pre), IndexOfEncodingChar(buf[n]));
      PlaceValuesArePowers(n);
    } else {
      assert buf[..Min(n + 1, |buf|)] == buf[..Min(n, |buf|)];
    }
  }

  /** `ToBase10` is the little-endian base-77 value of the digits of the first six bytes:
      byte k has weight 77^k, and every later byte is ignored. */
  lemma ToBase10IsLittleEndian(buf: seq<byte>)
    ensures ToBase10(buf) == Value(Indices(buf[..Min(6, |buf|)]))
    ensures ToBase10(buf) == ToBase10(buf[..Min(6, |buf|)])
  {
    assert buf[..Min(0, |buf|)] == [];
    TermStep(buf, 0);
    TermStep(buf, 1);
    TermStep(buf, 2);
    TermStep(buf, 3);
    TermStep(buf, 4);
    TermStep(buf, 5);
    var pre := buf[..Min(6, |buf|)];
    assert forall p :: 0 <= p < 6 ==> Term(pre, p) == Term(buf, p);
  }

  // ---------------------------------------------------------------------------------------
  // The round trip

  /** The digits of `v` at places lo, lo+1, ..., hi-1. */
  function Digits(v: nat, lo: nat, hi: nat): (ds: seq<digit>)
    ensures |ds| == if lo <= hi then hi - lo else 0
    decreases hi - lo
  {
    if lo >= hi then [] else [Digit(v, lo)] + Digits(v, lo + 1, hi)
  }

  lemma {:induction false} DigitsValue(v: nat, lo: nat, hi: nat)
    requires lo <= hi
    ensures Value(Digits(v, lo, hi)) == v / Pow77(lo) % Pow77(hi - lo)
    decreases hi - lo
  {
    if lo < hi {
      DigitsValue(v, lo + 1, hi);
      var x := v / Pow77(lo);
      assert Pow77(lo + 1) == Pow77(lo) * 77;
      Arith.DivDiv(v, Pow77(lo), 77);
      Arith.DivDiv(x, 77, Pow77(hi - lo - 1));
    } else {
      Arith.DivBelow(v / Pow77(lo) % 1, 1);
    }
  }

  /** The number of base-77 digits of `v`. */
  function Width(v: nat): nat
  {
    if v == 0 then 0 else 1 + Width(v / 77)
  }

  lemma {:induction false} WidthBounds(v: nat)
    ensures v < Pow77(Width(v))
    ensures v > 0 ==> Pow77(Width(v) - 1) <= v
  {
    if v > 0 {
      WidthBounds(v / 77);
      Arith.MulMonotone(v / 77 + 1, Pow77(Width(v / 77)), 77);
      if v / 77 > 0 {
        Arith.MulMonotone(Pow77(Width(v / 77) - 1), v / 77, 77);
      }
    }
  }

  /** Digits at or above the width are zero. */
  lemma AboveWidth(v: nat, q: nat)
    requires Width(v) <= q
    ensures Digit(v, q) == 0
  {
    WidthBounds(v);
    PowMonotone(Width(v), q);
    Arith.DivBelow(v, Pow77(q));
  }

  /** Without zero digits between place p and the width, the non-zero higher digits are all the
      digits from place p up. */
  lemma {:induction false} HigherDigitsExact(v: nat, p: nat)
    requires 1 <= p <= 9 && Width(v) <= 9
    requires forall k :: p <= k < Width(v) ==> Digit(v, k) != 0
    ensures HigherDigits(v, p) == Digits(v, p, Width(v))
    decreases 9 - p
  {
    if p >= Width(v) {
      forall k | p <= k < 9
        ensures Digit(v, k) == 0
      {
        AboveWidth(v, k);
      }
      HigherSkip(v, p, 9);
    } else {
      HigherDigitsExact(v, p + 1);
    }
  }

  /** From place p up, the token holds at most one glyph per place below the width. */
  lemma {:induction false} HigherDigitsBound(v: nat, p: nat)
    requires 1 <= p <= 9 && Width(v) <= 9
    ensures |HigherDigits(v, p)| <= if p <= Width(v) then Width(v) - p else 0
    decreases 9 - p
  {
    if p < 9 {
      HigherDigitsBound(v, p + 1);
      if p >= Width(v) {
        AboveWidth(v, p);
      }
    }
  }

  /** A zero digit at a place between p and the width costs the token one glyph. */
  lemma {:induction false} HigherDigitsShort(v: nat, p: nat, gap: nat)
    requires 1 <= p <= gap < Width(v) <= 9 && Digit(v, gap) == 0
    ensures |HigherDigits(v, p)| < Width(v) - p
    decreases gap - p
  {
    if p < gap {
      HigherDigitsShort(v, p + 1, gap);
    } else {
      HigherDigitsBound(v, p + 1);
    }
  }

  /** Every digit from place 1 up to the highest non-zero digit of `v` is non-zero. */
  ghost predicate NoInteriorZeros(v: nat)
  {
    forall p {:trigger Digit(v, p)} :: 1 <= p && Pow77(p) <= v ==> Digit(v, p) != 0
  }

  /** The exact round-trip condition: the token of `v` reads back as `v` if and only if `v` has
      at most six base-77 digits and none of its digits from place 77^1 up to its highest
      non-zero digit is zero (zero digits are dropped when writing, and only six glyphs are
      read). For example 77^2 is written "ab", which reads back as 77. */
  lemma RoundTrip(v: u64)
    ensures (Base77(v).Ok? && ToBase10(Base77(v).value) == v) <==> (v < Pow77(6) && NoInteriorZeros(v))
  {
    if v < Pow77(9) {
      ReadBackValue(v);
      if v < Pow77(6) && NoInteriorZeros(v) {
        RoundTripHolds(v);
      } else if ToBase10(Base77(v).value) == v {
        RoundTripNeedsCondition(v);
      }
    } else {
      PowMonotone(6, 9);
    }
  }

  /** What reading a token back yields: the value of its first six digits, which is below 77
      to the power of the number of digits read. */
  lemma ReadBackValue(v: nat)
    requires v < Pow77(9)
    ensures Base77(v).Ok?
    ensures ToBase10(Base77(v).value) == Value(TokenDigits(v)[..Min(6, |TokenDigits(v)|)])
    ensures ToBase10(Base77(v).value) < Pow77(Min(6, |TokenDigits(v)|))
  {
    var ds := TokenDigits(v);
    var n := Min(6, |ds|);
    ToBase10IsLittleEndian(Glyphs(ds));
    GlyphPrefix(ds, n);
    IndicesOfGlyphs(ds[..n]);
    ValueBound(ds[..n]);
  }

  lemma GlyphPrefix(ds: seq<digit>, n: nat)
    requires n <= |ds|
    ensures Glyphs(ds)[..n] == Glyphs(ds[..n])
  {
  }

  lemma RoundTripHolds(v: nat)
    requires v < Pow77(6) && NoInteriorZeros(v)
    ensures Base77(v).Ok? && ToBase10(Base77(v).value) == v
  {
    PowMonotone(6, 9);
    ReadBackValue(v);
    if v > 0 {
      var w := Width(v);
      TokenIsAllDigits(v);
      var ds := TokenDigits(v);
      assert |ds| == w;
      assert ds[..Min(6, |ds|)] == ds;
      DigitsValue(v, 0, w);
      assert v / Pow77(0) == v;
      WidthBounds(v);
      Arith.DivBelow(v, Pow77(w));
    }
  }

  /** Without interior zeros, the token of a non-zero value spells every digit up to its width. */
  lemma TokenIsAllDigits(v: nat)
    requires 0 < v < Pow77(6) && NoInteriorZeros(v)
    ensures Width(v) <= 6
    ensures TokenDigits(v) == Digits(v, 0, Width(v))
  {
    var w := Width(v);
    WidthBounds(v);
    if w > 6 {
      PowMonotone(6, w - 1);
    }
    forall k | 1 <= k < w
      ensures Digit(v, k) != 0
    {
      PowMonotone(k, w - 1);
    }
    HigherDigitsExact(v, 1);
  }

  lemma RoundTripNeedsCondition(v: nat)
    requires v < Pow77(9) && Base77(v).Ok? && ToBase10(Base77(v).value) == v
    ensures v < Pow77(6) && NoInteriorZeros(v)
  {
    ReadBackValue(v);
    ShortTokenBelow(v);
  }

  /** A value below 77 to the power of the number of glyphs read from its token has at most six
      digits and no interior zero digit. */
  lemma ShortTokenBelow(v: nat)
    requires v < Pow77(9) && v < Pow77(Min(6, |TokenDigits(v)|))
    ensures v < Pow77(6) && NoInteriorZeros(v)
  {
    PowMonotone(Min(6, |TokenDigits(v)|), 6);
    if !NoInteriorZeros(v) {
      var p :| 1 <= p && Pow77(p) <= v && Digit(v, p) == 0;
      InteriorZeroReadsLess(v, p);
      assert false;
    }
  }

  /** With an interior zero digit, the glyphs read back are worth less than the value. */
  lemma InteriorZeroReadsLess(v: nat, p: nat)
    requires v < Pow77(9) && 1 <= p && Pow77(p) <= v && Digit(v, p) == 0
    ensures Pow77(Min(6, |TokenDigits(v)|)) <= v
  {
    InteriorZeroShortens(v, p);
    PowMonotone(Min(6, |TokenDigits(v)|), Width(v) - 1);
  }

  /** A zero digit below the highest non-zero digit leaves the token shorter than the width. */
  lemma InteriorZeroShortens(v: nat, p: nat)
    requires v < Pow77(9) && 1 <= p && Pow77(p) <= v && Digit(v, p) == 0
    ensures 1 <= Width(v) && Pow77(Width(v) - 1) <= v
    ensures |TokenDigits(v)| < Width(v)
  {
    var w := Width(v);
    WidthBounds(v);
    if p >= w {
      PowMonotone(w, p);
    }
    if w > 9 {
      PowMonotone(9, w - 1);
    }
    HigherDigitsShort(v, 1, p);
  }
}
