/** Min-max scalar quantization, over the reals. */
module ScalarQuantizer {
  import opened InvertedLists

  const MAX_8BIT: nat := 255
  const MAX_16BIT: nat := 65535

  datatype Quantizer = Quantizer(maxCode: nat, vmin: real, vmax: real) {
    predicate Valid() {
      (maxCode == MAX_8BIT || maxCode == MAX_16BIT) && vmin < vmax
    }

    function Range(): real {
      vmax - vmin
    }

    /** The distance between neighbouring codes. */
    function Step(): (s: real)
      requires Valid()
    {
      Range() / maxCode as real
    }

    /** Where a value falls on the code scale, before clamping. */
    function Scaled(v: real): real
      requires Valid()
    {
      (v - vmin) * (maxCode as real / Range())
    }

    function Encode(v: real): (code: nat)
      requires Valid()
      ensures code <= maxCode
    {
      Round(Clamp(Scaled(v), 0.0, maxCode as real))
    }

    function Decode(code: nat): real
      requires Valid()
    {
      vmin + code as real * Range() / maxCode as real
    }

    /** A quantized dot product on the original scale; both quantizers are taken to be this wide. */
    function DecodeDotProduct(score: real, query: Quantizer): real
      requires Valid()
    {
      score * ((Range() * query.Range()) / (maxCode as real * maxCode as real))
    }
  }

  /** A bound as a caller may give it. */
  datatype Bound = Finite(value: real) | Infinite | NotANumber

  /** A quantizer needs finite bounds with a range of positive length. */
  method MakeQuantizer(maxCode: nat, vmin: Bound, vmax: Bound) returns (q: Result<Quantizer>)
    requires maxCode == MAX_8BIT || maxCode == MAX_16BIT
    ensures q.Ok? <==> vmin.Finite? && vmax.Finite? && vmin.value < vmax.value
    ensures q.Ok? ==> q.value == Quantizer(maxCode, vmin.value, vmax.value) && q.value.Valid()
  {
    if !vmin.Finite? || !vmax.Finite? {
      return Failed("vmin and vmax must be finite");
    }
    if vmax.value <= vmin.value {
      return Failed("vmax must be greater than vmin");
    }
    return Ok(Quantizer(maxCode, vmin.value, vmax.value));
  }

  function Clamp(x: real, lo: real, hi: real): (r: real)
    requires lo <= hi
    ensures lo <= r <= hi && (lo <= x <= hi ==> r == x)
  {
    if x < lo then lo else if x > hi then hi else x
  }

  /** Rounding half up, on values that are not negative. */
  function Round(x: real): (n: nat)
    requires x >= 0.0
    ensures x - 0.5 < n as real <= x + 0.5
  {
    (x + 0.5).Floor
  }

  method EncodeAll(q: Quantizer, vals: seq<real>) returns (codes: seq<nat>)
    requires q.Valid()
    ensures |codes| == |vals| && forall i :: 0 <= i < |vals| ==> codes[i] == q.Encode(vals[i])
  {
    codes := [];
    for i := 0 to |vals|
      invariant |codes| == i && forall j :: 0 <= j < i ==> codes[j] == q.Encode(vals[j])
    {
      codes := codes + [q.Encode(vals[i])];
    }
  }

  // ---------------------------------------------------------------- arithmetic

  lemma MulLe(a: real, b: real, c: real)
    requires a <= b && c >= 0.0
    ensures a * c <= b * c
  {
  }

  lemma ClampMonotone(x: real, y: real, lo: real, hi: real)
    requires lo <= hi && x <= y
    ensures Clamp(x, lo, hi) <= Clamp(y, lo, hi)
  {
  }

  lemma RoundMonotone(x: real, y: real)
    requires 0.0 <= x <= y
    ensures Round(x) <= Round(y)
  {
  }

  lemma RoundExact(n: nat)
    ensures Round(n as real) == n
  {
  }

  /** One code step corresponds to one unit of the scale. */
  lemma StepScale(q: Quantizer)
    requires q.Valid()
    ensures q.Step() > 0.0 && q.maxCode as real / q.Range() > 0.0
    ensures q.Step() * (q.maxCode as real / q.Range()) == 1.0
    ensures q.Step() * q.maxCode as real == q.Range()
  {
    var m, r := q.maxCode as real, q.Range();
    assert q.Step() * m == r;
    assert (m / r) * r == m;
    Inverse(q.Step(), m, r);
  }

  lemma Inverse(s: real, m: real, r: real)
    requires m > 0.0 && r > 0.0 && s * m == r
    ensures s > 0.0 && s * (m / r) == 1.0
  {
    assert s == r / m;
    assert (r / m) * (m / r) == 1.0;
  }

  lemma ScaledInverse(q: Quantizer, v: real)
    requires q.Valid()
    ensures q.Scaled(v) * q.Step() == v - q.vmin
  {
    StepScale(q);
    Reassociate(v - q.vmin, q.maxCode as real / q.Range(), q.Step());
  }

  lemma Reassociate(a: real, b: real, c: real)
    ensures (a * b) * c == a * (c * b)
  {
  }

  lemma DecodeIsStep(q: Quantizer, code: nat)
    requires q.Valid()
    ensures q.Decode(code) == q.vmin + code as real * q.Step()
  {
    assert (code as real * q.Range()) / q.maxCode as real == code as real * (q.Range() / q.maxCode as real);
  }

  // ---------------------------------------------------------------- what quantization keeps

  /** Larger values never get smaller codes. */
  lemma EncodeMonotone(q: Quantizer, v: real, w: real)
    requires q.Valid() && v <= w
    ensures q.Encode(v) <= q.Encode(w)
  {
    StepScale(q);
    MulLe(v - q.vmin, w - q.vmin, q.maxCode as real / q.Range());
    assert q.Scaled(v) <= q.Scaled(w);
    ClampMonotone(q.Scaled(v), q.Scaled(w), 0.0, q.maxCode as real);
    RoundMonotone(Clamp(q.Scaled(v), 0.0, q.maxCode as real), Clamp(q.Scaled(w), 0.0, q.maxCode as real));
  }

  /** Every code survives decoding and encoding again. */
  lemma CodeRoundTrip(q: Quantizer, code: nat)
    requires q.Valid() && code <= q.maxCode
    ensures q.Encode(q.Decode(code)) == code
  {
    StepScale(q);
    DecodeIsStep(q, code);
    Reassociate(code as real, q.Step(), q.maxCode as real / q.Range());
    assert q.Scaled(q.Decode(code)) == code as real * (q.Step() * (q.maxCode as real / q.Range()));
    assert q.Scaled(q.Decode(code)) == code as real;
    RoundExact(code);
  }

  /** Clamping on the code scale is clamping the value to the quantizer's range. */
  lemma ClampScales(q: Quantizer, v: real)
    requires q.Valid()
    ensures Clamp(q.Scaled(v), 0.0, q.maxCode as real) * q.Step() == Clamp(v, q.vmin, q.vmax) - q.vmin
  {
    StepScale(q);
    ScaledInverse(q, v);
    var s, m := q.Scaled(v), q.maxCode as real;
    if s < 0.0 {
      MulLt(s, 0.0, q.Step());
    } else if s > m {
      MulLt(m, s, q.Step());
      assert m * q.Step() == q.Range();
    } else {
      MulLe(0.0, s, q.Step());
      MulLe(s, m, q.Step());
      assert m * q.Step() == q.Range();
    }
  }

  lemma MulLt(a: real, b: real, c: real)
    requires a < b && c > 0.0
    ensures a * c < b * c
  {
  }

  /** The decoded value is within half a step of the clamped one. */
  lemma QuantizationError(q: Quantizer, v: real)
    requires q.Valid()
    ensures Near(q.Decode(q.Encode(v)), Clamp(v, q.vmin, q.vmax), q.Step() / 2.0)
  {
    StepScale(q);
    ClampScales(q, v);
    DecodeIsStep(q, q.Encode(v));
    var c, x, s := q.Encode(v) as real, Clamp(q.Scaled(v), 0.0, q.maxCode as real), q.Step();
    MulLe(x - 0.5, c, s);
    MulLe(c, x + 0.5, s);
    assert (x - 0.5) * s == x * s - s / 2.0 && (x + 0.5) * s == x * s + s / 2.0;
  }

  // ---------------------------------------------------------------- dot products over codes

  /** The dot product of two quantized vectors, in integers. */
  function CodeDot(a: Quantizer, xs: seq<real>, b: Quantizer, ys: seq<real>): int
    requires a.Valid() && b.Valid() && |xs| == |ys|
  {
    if xs == [] then 0
    else CodeDot(a, xs[..|xs| - 1], b, ys[..|ys| - 1]) + a.Encode(xs[|xs| - 1]) * b.Encode(ys[|ys| - 1])
  }

  function TrueDot(xs: seq<real>, ys: seq<real>): real
    requires |xs| == |ys|
  {
    if xs == [] then 0.0
    else TrueDot(xs[..|xs| - 1], ys[..|ys| - 1]) + xs[|xs| - 1] * ys[|ys| - 1]
  }

  ghost predicate Within(xs: seq<real>, hi: real) {
    forall i :: 0 <= i < |xs| ==> 0.0 <= xs[i] <= hi
  }

  /** What one term of a dot product can be off by. */
  function TermError(a: Quantizer, b: Quantizer): real
    requires a.Valid() && b.Valid()
  {
    (a.Step() * b.Range() + a.Range() * b.Step()) / 2.0
  }

  /** The decoding scale is the product of the steps exactly when both quantizers are equally wide. */
  lemma ScaleIffSameWidth(a: Quantizer, b: Quantizer)
    requires a.Valid() && b.Valid()
    ensures a.DecodeDotProduct(1.0, b) == a.Step() * b.Step() <==> a.maxCode == b.maxCode
  {
    var m, n, r, s := a.maxCode as real, b.maxCode as real, a.Range(), b.Range();
    var p, q := a.Step(), b.Step();
    StepScale(a);
    StepScale(b);
    assert p * m == r && q * n == s;
    var scale := (r * s) / (m * m);
    assert scale * (m * m) == r * s;
    CrossProducts(p, m, q, n, scale);
  }

  lemma CrossProducts(p: real, m: real, q: real, n: real, scale: real)
    requires p > 0.0 && q > 0.0 && m > 0.0 && n > 0.0
    requires scale * (m * m) == (p * m) * (q * n)
    ensures scale == p * q <==> m == n
  {
    var z := p * q * m;
    assert z > 0.0 by {
      Positive(p, q);
      Positive(p * q, m);
    }
    assert (p * m) * (q * n) == z * n;
    if scale == p * q {
      assert scale * (m * m) == z * m;
      Cancel(z, m, n);
    }
    if m == n {
      assert z * n == (p * q) * (m * m);
      Positive(m, m);
      Cancel(m * m, scale, p * q);
    }
  }

  lemma Positive(a: real, b: real)
    requires a > 0.0 && b > 0.0
    ensures a * b > 0.0
  {
  }

  lemma Cancel(z: real, x: real, y: real)
    requires z > 0.0 && z * x == z * y
    ensures x == y
  {
    if x < y {
      MulLt(x, y, z);
    } else if y < x {
      MulLt(y, x, z);
    }
  }

  ghost predicate Near(x: real, y: real, e: real) {
    y - e <= x <= y + e
  }

  /** a*b against x*y when a is near x and b near y. */
  lemma ProductError(a: real, x: real, b: real, y: real, da: real, db: real, bound: real, top: real)
    requires Near(a, x, da) && Near(b, y, db) && 0.0 <= b <= bound && 0.0 <= x <= top
    ensures Near(a * b, x * y, da * bound + top * db)
  {
    assert a * b - x * y == (a - x) * b + x * (b - y);
    AbsProduct(a - x, b, da, bound);
    AbsProduct(b - y, x, db, top);
  }

  lemma AbsProduct(d: real, b: real, da: real, bound: real)
    requires -da <= d <= da && 0.0 <= b <= bound
    ensures -(da * bound) <= d * b <= da * bound
  {
    MulLe(d, da, b);
    MulLe(-da, d, b);
    MulLe(b, bound, da);
  }

  /** A code times the step: the decoded value of a quantizer whose range starts at zero. */
  function Level(q: Quantizer, v: real): real
    requires q.Valid()
  {
    q.Encode(v) as real * q.Step()
  }

  lemma NearLevel(q: Quantizer, v: real)
    requires q.Valid() && q.vmin == 0.0 && 0.0 <= v <= q.vmax
    ensures Near(Level(q, v), v, q.Step() / 2.0)
    ensures 0.0 <= Level(q, v) <= q.Range() == q.vmax
  {
    hide Quantizer.Encode, Quantizer.Decode, Quantizer.Step;
    QuantizationError(q, v);
    DecodeIsStep(q, q.Encode(v));
    StepScale(q);
    BelowTop(q.Encode(v) as real, q.maxCode as real, q.Step(), q.Range());
  }

  lemma BelowTop(c: real, m: real, s: real, r: real)
    requires 0.0 <= c <= m && s > 0.0 && s * m == r
    ensures 0.0 <= c * s <= r
  {
    MulLe(c, m, s);
    MulLe(0.0, c, s);
  }

  lemma OneTermError(a: Quantizer, x: real, b: Quantizer, y: real)
    requires a.Valid() && b.Valid() && a.vmin == 0.0 && b.vmin == 0.0
    requires 0.0 <= x <= a.vmax && 0.0 <= y <= b.vmax
    ensures Near(Level(a, x) * Level(b, y), x * y, TermError(a, b))
  {
    hide Level, Quantizer.Step, Quantizer.Range;
    NearLevel(a, x);
    NearLevel(b, y);
    ProductError(Level(a, x), x, Level(b, y), y, a.Step() / 2.0, b.Step() / 2.0, b.Range(), a.Range());
    Halves(a.Step(), b.Range(), a.Range(), b.Step());
  }

  lemma Halves(s: real, r: real, t: real, u: real)
    ensures (s / 2.0) * r + t * (u / 2.0) == (s * r + t * u) / 2.0
  {
  }

  /** The integer dot product on the original scale. */
  function ScaledDot(a: Quantizer, xs: seq<real>, b: Quantizer, ys: seq<real>): real
    requires a.Valid() && b.Valid() && |xs| == |ys|
  {
    CodeDot(a, xs, b, ys) as real * (a.Step() * b.Step())
  }

  /** What n terms can be off by. */
  function Budget(n: nat, a: Quantizer, b: Quantizer): real
    requires a.Valid() && b.Valid()
  {
    n as real * TermError(a, b)
  }

  lemma BudgetNext(n: nat, a: Quantizer, b: Quantizer)
    requires a.Valid() && b.Valid()
    ensures Budget(0, a, b) == 0.0 && Budget(n + 1, a, b) == Budget(n, a, b) + TermError(a, b)
  {
    hide TermError;
    Distribute(n as real, 1.0, TermError(a, b));
  }

  lemma Distribute(x: real, y: real, z: real)
    ensures (x + y) * z == x * z + y * z
  {
  }

  lemma NothingScaled(a: Quantizer, xs: seq<real>, b: Quantizer, ys: seq<real>)
    requires a.Valid() && b.Valid() && |xs| == |ys| == 0
    ensures ScaledDot(a, xs, b, ys) == 0.0
  {
  }

  lemma ScaledNext(a: Quantizer, xs: seq<real>, b: Quantizer, ys: seq<real>)
    requires a.Valid() && b.Valid() && |xs| == |ys| > 0
    ensures var n := |xs| - 1;
      ScaledDot(a, xs, b, ys) == ScaledDot(a, xs[..n], b, ys[..n]) + Level(a, xs[n]) * Level(b, ys[n])
  {
    hide Quantizer.Encode, Quantizer.Step;
    var n := |xs| - 1;
    var x, y := a.Encode(xs[n]), b.Encode(ys[n]);
    CastProduct(x, y);
    Distribute(CodeDot(a, xs[..n], b, ys[..n]) as real, x as real * y as real, a.Step() * b.Step());
    Interchange(x as real, y as real, a.Step(), b.Step());
  }

  lemma CastProduct(x: nat, y: nat)
    ensures (x * y) as real == x as real * y as real
  {
  }

  lemma Interchange(x: real, y: real, s: real, t: real)
    ensures (x * y) * (s * t) == (x * s) * (y * t)
  {
  }

  /** The error bound with the scale spelled out as the product of the steps, for any two widths. */
  lemma {:induction false} StepError(a: Quantizer, xs: seq<real>, b: Quantizer, ys: seq<real>)
    requires a.Valid() && b.Valid() && a.vmin == 0.0 && b.vmin == 0.0
    requires |xs| == |ys| && Within(xs, a.vmax) && Within(ys, b.vmax)
    ensures Near(ScaledDot(a, xs, b, ys), TrueDot(xs, ys), Budget(|xs|, a, b))
  {
    hide ScaledDot, Budget, Level, TermError, CodeDot, Quantizer.Encode, Quantizer.Step, Quantizer.Range;
    if xs == [] {
      NothingScaled(a, xs, b, ys);
      BudgetNext(0, a, b);
    } else {
      var n := |xs| - 1;
      StepError(a, xs[..n], b, ys[..n]);
      OneTermError(a, xs[n], b, ys[n]);
      ScaledNext(a, xs, b, ys);
      BudgetNext(n, a, b);
    }
  }

  /**
   * With ranges from zero and inputs inside them, decoding an n-term integer dot product is off by
   * at most n times a constant of the two ranges and steps.
   */
  lemma DotProductError(a: Quantizer, xs: seq<real>, b: Quantizer, ys: seq<real>)
    requires a.Valid() && b.Valid() && a.maxCode == b.maxCode && a.vmin == 0.0 && b.vmin == 0.0
    requires |xs| == |ys| && Within(xs, a.vmax) && Within(ys, b.vmax)
    ensures Near(a.DecodeDotProduct(CodeDot(a, xs, b, ys) as real, b), TrueDot(xs, ys), Budget(|xs|, a, b))
  {
    hide Quantizer.DecodeDotProduct, Quantizer.Step, CodeDot, TrueDot, TermError, ScaledDot;
    ScaleIffSameWidth(a, b);
    DecodeIsScaled(a, xs, b, ys);
    StepError(a, xs, b, ys);
  }

  lemma DecodeIsScaled(a: Quantizer, xs: seq<real>, b: Quantizer, ys: seq<real>)
    requires a.Valid() && b.Valid() && |xs| == |ys| && a.DecodeDotProduct(1.0, b) == a.Step() * b.Step()
    ensures a.DecodeDotProduct(CodeDot(a, xs, b, ys) as real, b) == ScaledDot(a, xs, b, ys)
  {
    hide CodeDot, Quantizer.Step;
  }

  // ---------------------------------------------------------------- mixed widths

  /** Every in-range integer dot product decodes within the bound. */
  ghost predicate DecodesWithin(a: Quantizer, b: Quantizer)
    requires a.Valid() && b.Valid()
  {
    forall xs: seq<real>, ys: seq<real> :: |xs| == |ys| && Within(xs, a.vmax) && Within(ys, b.vmax) ==>
      Near(a.DecodeDotProduct(CodeDot(a, xs, b, ys) as real, b), TrueDot(xs, ys), Budget(|xs|, a, b))
  }

  /** The bound holds for all in-range inputs exactly when both quantizers are equally wide. */
  lemma DecodesIffSameWidth(a: Quantizer, b: Quantizer)
    requires a.Valid() && b.Valid() && a.vmin == 0.0 && b.vmin == 0.0
    ensures DecodesWithin(a, b) <==> a.maxCode == b.maxCode
  {
    hide Quantizer.DecodeDotProduct, Quantizer.Step, CodeDot, TrueDot, TermError, Near, Budget;
    if a.maxCode == b.maxCode {
      forall xs: seq<real>, ys: seq<real> | |xs| == |ys| && Within(xs, a.vmax) && Within(ys, b.vmax)
        ensures Near(a.DecodeDotProduct(CodeDot(a, xs, b, ys) as real, b), TrueDot(xs, ys), Budget(|xs|, a, b))
      {
        DotProductError(a, xs, b, ys);
      }
    } else {
      MixedWidthFails(a, b);
      assert |[a.vmax]| == |[b.vmax]| && Within([a.vmax], a.vmax) && Within([b.vmax], b.vmax);
    }
  }

  /** The top of the range is the top code. */
  lemma TopCode(q: Quantizer)
    requires q.Valid() && q.vmin == 0.0
    ensures q.Encode(q.vmax) == q.maxCode
  {
    hide Quantizer.Encode;
    StepScale(q);
    DecodeIsStep(q, q.maxCode);
    CodeRoundTrip(q, q.maxCode);
  }

  /** Between widths the product of the two tops decodes far outside the bound. */
  lemma MixedWidthFails(a: Quantizer, b: Quantizer)
    requires a.Valid() && b.Valid() && a.vmin == 0.0 && b.vmin == 0.0 && a.maxCode != b.maxCode
    ensures !Near(a.DecodeDotProduct(CodeDot(a, [a.vmax], b, [b.vmax]) as real, b), TrueDot([a.vmax], [b.vmax]),
                  Budget(1, a, b))
  {
    TopProducts(a, b);
    var p, d := a.vmax * b.vmax, a.DecodeDotProduct((a.maxCode * b.maxCode) as real, b);
    Positive(a.vmax, b.vmax);
    hide Quantizer.DecodeDotProduct, CodeDot, TrueDot, Quantizer.Step;
    BudgetNext(0, a, b);
    StepShares(a, b, p);
    TopDecodes(a, b, p);
  }

  lemma TopProducts(a: Quantizer, b: Quantizer)
    requires a.Valid() && b.Valid() && a.vmin == 0.0 && b.vmin == 0.0
    ensures CodeDot(a, [a.vmax], b, [b.vmax]) == a.maxCode * b.maxCode
    ensures TrueDot([a.vmax], [b.vmax]) == a.vmax * b.vmax
  {
    hide Quantizer.Encode;
    TopCode(a);
    TopCode(b);
    assert [a.vmax][..0] == [] && [b.vmax][..0] == [];
  }

  lemma StepShares(a: Quantizer, b: Quantizer, p: real)
    requires a.Valid() && b.Valid() && a.vmin == 0.0 && b.vmin == 0.0 && p == a.vmax * b.vmax > 0.0
    ensures 0.0 < TermError(a, b) <= p / 255.0
  {
    StepScale(a);
    StepScale(b);
    hide Quantizer.Step;
    ShareOf(a.Step(), a.maxCode, a.Range(), b.Range(), p);
    ShareOf(b.Step(), b.maxCode, b.Range(), a.Range(), p);
    assert a.Range() * b.Step() == b.Step() * a.Range();
  }

  lemma ShareOf(s: real, m: nat, r: real, t: real, p: real)
    requires s * m as real == r && (m == MAX_8BIT || m == MAX_16BIT) && p == r * t > 0.0 && r > 0.0
    ensures 0.0 < s * t == p / m as real
  {
    assert (s * t) * m as real == p;
  }

  lemma TopDecodes(a: Quantizer, b: Quantizer, p: real)
    requires a.Valid() && b.Valid() && a.vmin == 0.0 && b.vmin == 0.0 && p == a.vmax * b.vmax > 0.0
    ensures a.maxCode < b.maxCode ==> a.DecodeDotProduct((a.maxCode * b.maxCode) as real, b) == 257.0 * p
    ensures a.maxCode > b.maxCode ==> a.DecodeDotProduct((a.maxCode * b.maxCode) as real, b) == p / 257.0
  {
    assert a.Range() * b.Range() == p;
  }

  /** 8-bit codes against 16-bit ones, both over [0, 1]: 1 times 1 decodes to 257. */
  lemma MixedWidthExample()
    ensures var a, b := Quantizer(MAX_8BIT, 0.0, 1.0), Quantizer(MAX_16BIT, 0.0, 1.0);
            && TrueDot([1.0], [1.0]) == 1.0
            && a.DecodeDotProduct(CodeDot(a, [1.0], b, [1.0]) as real, b) == 257.0
            && !DecodesWithin(a, b)
  {
    var a, b := Quantizer(MAX_8BIT, 0.0, 1.0), Quantizer(MAX_16BIT, 0.0, 1.0);
    hide Quantizer.Encode, DecodesWithin;
    TopProducts(a, b);
    DecodesIffSameWidth(a, b);
  }
}
