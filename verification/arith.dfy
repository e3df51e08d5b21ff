/** Division and remainder facts about natural numbers used by the codec proofs. */
module Arith {

  lemma DivModUnique(v: nat, b: nat, q: nat, r: nat)
    requires b > 0 && r < b && v == q * b + r
    ensures v / b == q && v % b == r
  {
    var q' := v / b;
    if q' > q {
      MulMonotone(q + 1, q', b);
      assert false;
    } else if q' < q {
      MulMonotone(q' + 1, q, b);
      assert false;
    }
  }

  lemma DivDiv(v: nat, b: nat, c: nat)
    requires b > 0 && c > 0
    ensures v / b / c == v / (b * c)
    ensures v % (b * c) == v % b + b * ((v / b) % c)
  {
    var w := v / b;
    var q := w / c;
    var r := w % c;
    Regroup(v, b, c, w, q, r);
    RemainderBound(r, v % b, b, c);
    DivModUnique(v, b * c, q, r * b + v % b);
    assert b * r == r * b;
  }

  lemma Regroup(v: nat, b: nat, c: nat, w: nat, q: nat, r: nat)
    requires b > 0 && v == w * b + v % b && w == q * c + r
    ensures v == q * (b * c) + (r * b + v % b)
  {
    Distribute(q * c, r, b);
    assert q * c * b == q * (b * c);
  }

  lemma RemainderBound(r: nat, s: nat, b: nat, c: nat)
    requires r < c && s < b
    ensures r * b + s < b * c
  {
    MulMonotone(r, c - 1, b);
    Distribute(c - 1, 1, b);
  }

  lemma Distribute(x: nat, y: nat, z: nat)
    ensures (x + y) * z == x * z + y * z
  {
  }

  lemma ModOfMod(v: nat, b: nat, c: nat)
    requires b > 0 && c > 0
    ensures (v % (b * c)) % b == v % b
    ensures (v % (b * c)) / b == (v / b) % c
  {
    DivDiv(v, b, c);
    var r := (v / b) % c;
    assert v % (b * c) == r * b + v % b;
    DivModUnique(v % (b * c), b, r, v % b);
  }

  lemma DivNonneg(v: nat, b: nat)
    requires b > 0
    ensures v / b >= 0
  {
  }

  lemma MulBounded(a: nat, b: nat, m: nat)
    requires b <= m
    ensures 0 <= a * b <= a * m
  {
    MulMonotone(0, b, a);
    MulMonotone(b, m, a);
  }

  lemma DivBelow(v: nat, b: nat)
    requires b > 0 && v < b
    ensures v / b == 0 && v % b == v
  {
    DivModUnique(v, b, 0, v);
  }

  lemma MulMonotone(a: nat, b: nat, c: nat)
    requires a <= b
    ensures a * c <= b * c
  {
  }
}
