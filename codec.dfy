/**
  The mixed-radix observation codec of gym_breakout_pygame/utils.py.

  A tuple `obs` of bounded integers with bounds `dims` is flattened into one integer,
  `obs[0]` being the least-significant digit and the place value of digit `i` being the
  product of the bounds before it. `Encode` and `Decode` are the source's loops; `Value`
  and `Digits` are the mathematical definitions they are proved against.
*/
module Codec {
  import opened Wrappers

  /** Why the source raises instead of returning. */
  datatype CodecError =
    | LengthMismatch   // `assert len(obs) == len(spaces)` fails
    | EmptySpaces      // `obs[0]` on an empty list, or `reduce` of an empty list
    | ZeroSize         // a floor division by a zero size or by a zero product

  /** Product of the sizes; the empty product is 1. */
  function Prod(dims: seq<nat>): nat
  {
    if |dims| == 0 then 1 else Prod(dims[..|dims| - 1]) * dims[|dims| - 1]
  }

  /** Every size is at least one: the Discrete spaces the codec is meant for. */
  predicate Positive(dims: seq<nat>)
  {
    forall i :: 0 <= i < |dims| ==> dims[i] > 0
  }

  /** Every digit lies within its bound. */
  predicate InBounds(obs: seq<int>, dims: seq<nat>)
  {
    |obs| == |dims| && forall i :: 0 <= i < |obs| ==> 0 <= obs[i] < dims[i]
  }

  /** The mixed-radix value: the sum over i of obs[i] * Prod(dims[..i]). */
  function Value(obs: seq<int>, dims: seq<nat>): int
    requires |obs| == |dims|
  {
    if |obs| == 0 then 0
    else Value(obs[..|obs| - 1], dims[..|dims| - 1]) + obs[|obs| - 1] * Prod(dims[..|dims| - 1])
  }

  /**
    The mixed-radix digits of x, least significant first. Every digit but the last is a
    remainder; the last one takes whatever is left, so it is unbounded when x is.
  */
  function Digits(x: int, dims: seq<nat>): (ds: seq<int>)
    requires |dims| > 0 && Positive(dims)
    ensures |ds| == |dims|
    decreases |dims|
  {
    if |dims| == 1 then [x] else [x % dims[0]] + Digits(x / dims[0], dims[1..])
  }

  /** `s[::-1]` */
  function Reversed(s: seq<int>): seq<int>
  {
    if |s| == 0 then [] else [s[|s| - 1]] + Reversed(s[..|s| - 1])
  }

  // ---------------------------------------------------------------------------
  // Arithmetic facts about Euclidean division (which is floor division here, since
  // every divisor is positive).

  lemma DivModUnique(x: int, d: int, q: int, r: int)
    requires d > 0 && 0 <= r < d && x == d * q + r
    ensures x / d == q && x % d == r
  {
    var q', r' := x / d, x % d;
    assert d * (q - q') == r' - r;
    if q > q' {
      assert d * (q - q') >= d by { MulAtLeast(d, q - q'); }
    } else if q < q' {
      assert d * (q' - q) >= d by { MulAtLeast(d, q' - q); }
    }
  }

  lemma MulAtLeast(d: int, k: int)
    requires d > 0 && k >= 1
    ensures d * k >= d
  {
  }

  /** Peeling two digits at once equals peeling them one after the other. */
  lemma DivModNested(x: int, a: int, b: int)
    requires a > 0 && b > 0
    ensures a * b > 0
    ensures (x % (a * b)) % a == x % a
    ensures (x % (a * b)) / a == (x / a) % b
    ensures x / (a * b) == (x / a) / b
  {
    var q, r := x / a, x % a;
    var q2, r2 := q / b, q % b;
    assert x == (a * b) * q2 + (a * r2 + r) by {
      assert x == a * q + r;
      assert q == b * q2 + r2;
    }
    assert a * r2 <= a * (b - 1) by { MulMonotone(a, r2, b - 1); }
    assert 0 <= a * r2;
    DivModUnique(x, a * b, q2, a * r2 + r);
    DivModUnique(a * r2 + r, a, r2, r);
  }

  lemma QuotientBound(x: int, d: int, p: int)
    requires d > 0 && 0 <= x < d * p
    ensures 0 <= x / d < p
  {
    var q := x / d;
    if q >= p {
      MulMonotone(d, p, q);
    }
  }

  lemma DigitStepBound(o: int, d: int, v: int, p: int)
    requires 0 <= o < d && 0 <= v < p
    ensures 0 <= o + d * v < d * p
  {
    MulMonotone(d, v, p - 1);
    assert d * (p - 1) == d * p - d;
    MulMonotone(d, 0, v);
  }

  lemma HornerStep(o0: int, d0: int, v: int, o: int, p: int)
    ensures o0 + d0 * v + o * (d0 * p) == o0 + d0 * (v + o * p)
  {
    assert o * (d0 * p) == d0 * (o * p);
  }

  lemma MulMonotone(a: int, x: int, y: int)
    requires a >= 0 && x <= y
    ensures a * x <= a * y
  {
  }

  // ---------------------------------------------------------------------------
  // Structural facts about Prod and Value.

  /** The product peeled from the front. */
  lemma {:induction false} ProdCons(dims: seq<nat>)
    requires |dims| > 0
    ensures Prod(dims) == dims[0] * Prod(dims[1..])
    decreases |dims|
  {
    if |dims| > 1 {
      var init := dims[..|dims| - 1];
      ProdCons(init);
      assert init[1..] == dims[1..][..|dims[1..]| - 1];
      assert Prod(dims[1..]) == Prod(init[1..]) * dims[|dims| - 1];
    } else {
      assert dims[1..] == [];
      assert dims[..0] == [];
    }
  }

  /** A product of positive sizes is positive, and a product with a zero size is zero. */
  lemma {:induction false} ProdZero(dims: seq<nat>)
    ensures Prod(dims) > 0 <==> Positive(dims)
    decreases |dims|
  {
    if |dims| > 0 {
      var init := dims[..|dims| - 1];
      ProdZero(init);
      if Positive(dims) {
        assert Positive(init);
      } else if Positive(init) {
        assert dims[|dims| - 1] == 0;
      } else {
        assert Prod(init) == 0;
      }
    }
  }

  /** The value peeled from the front: Horner's rule. */
  lemma {:induction false} ValueCons(obs: seq<int>, dims: seq<nat>)
    requires |obs| == |dims| > 0
    ensures Value(obs, dims) == obs[0] + dims[0] * Value(obs[1..], dims[1..])
    decreases |obs|
  {
    var n := |obs|;
    if n == 1 {
      assert obs[..0] == [] && dims[..0] == [];
      assert obs[1..] == [] && dims[1..] == [];
    } else {
      var oi, di := obs[..n - 1], dims[..n - 1];
      ValueCons(oi, di);
      ProdCons(di);
      assert oi[1..] == obs[1..][..n - 2] && di[1..] == dims[1..][..n - 2];
      var v', p' := Value(oi[1..], di[1..]), Prod(di[1..]);
      assert Value(obs[1..], dims[1..]) == v' + obs[n - 1] * p';
      assert Value(obs, dims) == Value(oi, di) + obs[n - 1] * Prod(di);
      HornerStep(obs[0], dims[0], v', obs[n - 1], p');
    }
  }

  /** Splitting off the most-significant digit, as the decoding loop does. */
  lemma {:induction false} DigitsSplitLast(x: int, dims: seq<nat>)
    requires |dims| >= 2 && Positive(dims)
    ensures Prod(dims[..|dims| - 1]) > 0
    ensures Digits(x, dims)
         == Digits(x % Prod(dims[..|dims| - 1]), dims[..|dims| - 1]) + [x / Prod(dims[..|dims| - 1])]
    decreases |dims|
  {
    var n := |dims|;
    var init := dims[..n - 1];
    ProdZero(init);
    var p := Prod(init);
    var d0 := dims[0];
    if n == 2 {
      assert init == [d0];
      assert Prod(init) == d0 by { assert init[..0] == []; }
      assert dims[1..] == [dims[1]];
    } else {
      var tail := dims[1..];
      DigitsSplitLast(x / d0, tail);
      assert tail[..|tail| - 1] == init[1..];
      ProdCons(init);
      var p' := Prod(init[1..]);
      assert p == d0 * p';
      DivModNested(x, d0, p');
      assert init[0] == d0;
    }
  }

  // ---------------------------------------------------------------------------
  // The properties of the codec.

  /**
    An in-bounds observation encodes into [0, Prod(dims)): the index space is exactly the
    Discrete(product) space the encoded wrappers declare.
  */
  lemma {:induction false} ValueInRange(obs: seq<int>, dims: seq<nat>)
    requires InBounds(obs, dims)
    ensures 0 <= Value(obs, dims) < Prod(dims)
    decreases |obs|
  {
    if |obs| > 0 {
      assert InBounds(obs[1..], dims[1..]) by {
        forall i | 0 <= i < |obs| - 1 ensures 0 <= obs[1..][i] < dims[1..][i] {
          assert obs[1..][i] == obs[i + 1] && dims[1..][i] == dims[i + 1];
        }
      }
      ValueInRange(obs[1..], dims[1..]);
      ValueCons(obs, dims);
      ProdCons(dims);
      DigitStepBound(obs[0], dims[0], Value(obs[1..], dims[1..]), Prod(dims[1..]));
    }
  }

  /** Round trip: decoding the encoding of an in-bounds observation gives it back. */
  lemma {:induction false} DigitsOfValue(obs: seq<int>, dims: seq<nat>)
    requires |dims| > 0 && InBounds(obs, dims)
    ensures Positive(dims)
    ensures Digits(Value(obs, dims), dims) == obs
    decreases |obs|
  {
    ValueCons(obs, dims);
    var v' := Value(obs[1..], dims[1..]);
    DivModUnique(Value(obs, dims), dims[0], v', obs[0]);
    if |obs| > 1 {
      DigitsOfValue(obs[1..], dims[1..]);
    } else {
      assert obs[1..] == [] && dims[1..] == [];
    }
  }

  /** The other round trip: encoding the digits of any integer gives it back. */
  lemma {:induction false} ValueOfDigits(x: int, dims: seq<nat>)
    requires |dims| > 0 && Positive(dims)
    ensures Value(Digits(x, dims), dims) == x
    decreases |dims|
  {
    var ds := Digits(x, dims);
    ValueCons(ds, dims);
    if |dims| > 1 {
      var d0, q, tail := dims[0], x / dims[0], dims[1..];
      assert ds == [x % d0] + Digits(q, tail);
      assert ds[1..] == Digits(q, tail);
      ValueOfDigits(q, tail);
      assert Value(ds, dims) == x % d0 + d0 * q;
    } else {
      assert ds[1..] == [] && dims[1..] == [];
    }
  }

  /** Every index of [0, Prod(dims)) decodes into an in-bounds observation. */
  lemma {:induction false} DigitsInBounds(x: int, dims: seq<nat>)
    requires |dims| > 0 && Positive(dims) && 0 <= x < Prod(dims)
    ensures InBounds(Digits(x, dims), dims)
    decreases |dims|
  {
    ProdCons(dims);
    var ds := Digits(x, dims);
    if |dims| > 1 {
      var d0, p' := dims[0], Prod(dims[1..]);
      QuotientBound(x, d0, p');
      DigitsInBounds(x / d0, dims[1..]);
      assert ds[1..] == Digits(x / d0, dims[1..]);
      forall i | 0 <= i < |ds| ensures 0 <= ds[i] < dims[i] {
        if i > 0 { assert ds[i] == ds[1..][i - 1] && dims[i] == dims[1..][i - 1]; }
      }
    } else {
      assert dims[1..] == [];
    }
  }

  /** Distinct in-bounds observations have distinct codes. */
  lemma EncodeInjective(a: seq<int>, b: seq<int>, dims: seq<nat>)
    requires |dims| > 0 && InBounds(a, dims) && InBounds(b, dims)
    requires Value(a, dims) == Value(b, dims)
    ensures a == b
  {
    DigitsOfValue(a, dims);
    DigitsOfValue(b, dims);
  }

  // ---------------------------------------------------------------------------
  // The source's two procedures.

  /** `encode(obs, spaces)`: accumulates obs[i] * shift while shift runs through the place values. */
  method Encode(obs: seq<int>, dims: seq<nat>) returns (r: Result<int, CodecError>)
    ensures |obs| != |dims| ==> r == Failure(LengthMismatch)
    ensures |obs| == |dims| == 0 ==> r == Failure(EmptySpaces)
    ensures |obs| == |dims| > 0 ==> r == Success(Value(obs, dims))
    ensures |obs| == |dims| == 1 ==> r == Success(obs[0])
  {
    if |obs| != |dims| {
      return Failure(LengthMismatch);
    }
    if |obs| == 0 {
      return Failure(EmptySpaces);
    }
    var result := obs[0];
    var shift := dims[0];
    assert obs[..1][..0] == [] && dims[..1][..0] == [];
    var i := 1;
    while i < |obs|
      invariant 1 <= i <= |obs|
      invariant result == Value(obs[..i], dims[..i])
      invariant shift == Prod(dims[..i])
    {
      assert obs[..i + 1][..i] == obs[..i] && dims[..i + 1][..i] == dims[..i];
      result := result + obs[i] * shift;
      shift := shift * dims[i];
      i := i + 1;
    }
    assert obs[..|obs|] == obs && dims[..|dims|] == dims;
    return Success(result);
  }

  /** A zero place value comes from a zero size below it. */
  lemma ZeroPlaceValue(dims: seq<nat>, k: nat)
    requires k <= |dims| && Prod(dims[..k]) == 0
    ensures !Positive(dims)
  {
    ProdZero(dims[..k]);
    var i :| 0 <= i < k && dims[..k][i] == 0;
    assert dims[i] == 0;
  }

  /** A positive top size over a positive place value makes every size positive. */
  lemma PositiveFromTop(dims: seq<nat>)
    requires |dims| > 0 && dims[|dims| - 1] > 0 && Prod(dims[..|dims| - 1]) > 0
    ensures Positive(dims)
  {
    ProdZero(dims[..|dims| - 1]);
    forall i | 0 <= i < |dims| ensures dims[i] > 0 {
      if i < |dims| - 1 {
        assert dims[..|dims| - 1][i] == dims[i];
      }
    }
  }

  /**
    One iteration of the decoding loop on the sizes `pre` still to peel: the quotient by
    the top place value joins the collected digits, the remainder keeps the rest, and the
    place value shrinks by the next size.
  */
  lemma DecodeStep(rest: int, pre: seq<nat>, acc: seq<int>)
    requires |pre| >= 2 && Positive(pre)
    ensures var init := pre[..|pre| - 1];
            && Positive(init) && Prod(init) > 0 && pre[|pre| - 2] > 0
            && Prod(init) / pre[|pre| - 2] == Prod(init[..|init| - 1])
            && Digits(rest, pre) + Reversed(acc)
               == Digits(rest % Prod(init), init) + Reversed(acc + [rest / Prod(init)])
  {
    var init := pre[..|pre| - 1];
    DigitsSplitLast(rest, pre);
    var p := Prod(init);
    var q := rest / p;
    assert Reversed(acc + [q]) == [q] + Reversed(acc) by {
      assert (acc + [q])[..|acc|] == acc;
    }
    var low := init[..|init| - 1];
    ProdZero(low);
    assert p == Prod(low) * init[|init| - 1];
    DivModUnique(p, init[|init| - 1], Prod(low), 0);
  }

  /** `DecodeStep` on the first m sizes, in the terms of the decoding loop's invariant. */
  lemma DecodeStepAt(x: int, dims: seq<nat>, m: nat, rest: int, acc: seq<int>)
    requires 2 <= m <= |dims| && Positive(dims)
    requires Digits(x, dims) == Digits(rest, dims[..m]) + Reversed(acc)
    ensures Prod(dims[..m - 1]) > 0 && dims[m - 2] > 0
    ensures Prod(dims[..m - 1]) / dims[m - 2] == Prod(dims[..m - 2])
    ensures Digits(x, dims) == Digits(rest % Prod(dims[..m - 1]), dims[..m - 1])
                                + Reversed(acc + [rest / Prod(dims[..m - 1])])
  {
    var pre := dims[..m];
    assert pre[..m - 1] == dims[..m - 1] && dims[..m - 1][..m - 2] == dims[..m - 2];
    DecodeStep(rest, pre, acc);
  }

  /**
    `decode(obs, spaces)`: peels digits from the most-significant end, dividing by the
    place value `shift` and then shrinking it, and finally reverses the collected digits.
  */
  method Decode(x: int, dims: seq<nat>) returns (r: Result<seq<int>, CodecError>)
    ensures |dims| == 0 ==> r == Failure(EmptySpaces)
    ensures |dims| > 0 && !Positive(dims) ==> r == Failure(ZeroSize)
    ensures |dims| > 0 && Positive(dims) ==> r == Success(Digits(x, dims))
    ensures |dims| == 1 && Positive(dims) ==> r == Success([x])
  {
    var n := |dims|;
    if n == 0 {
      return Failure(EmptySpaces);
    }
    // sizes = dims reversed: sizes[0] is dims[n - 1], and sizes[1..] runs dims[n - 2], ..., dims[0]
    if dims[n - 1] == 0 {
      return Failure(ZeroSize);
    }
    assert dims[..n] == dims;
    DivModUnique(Prod(dims), dims[n - 1], Prod(dims[..n - 1]), 0);
    var shift := Prod(dims) / dims[n - 1];
    var rest := x;
    var acc: seq<int> := [];
    var m := n;
    while m > 1
      invariant 1 <= m <= n
      invariant shift == Prod(dims[..m - 1])
      invariant m < n ==> Positive(dims)
      invariant Positive(dims) ==> Digits(x, dims) == Digits(rest, dims[..m]) + Reversed(acc)
    {
      if shift == 0 {
        ZeroPlaceValue(dims, m - 1);
        return Failure(ZeroSize);
      }
      if m == n {
        PositiveFromTop(dims);
      }
      DecodeStepAt(x, dims, m, rest, acc);
      var size := dims[m - 2];
      acc := acc + [rest / shift];
      rest := rest % shift;
      shift := shift / size;
      m := m - 1;
    }
    assert Reversed(acc + [rest]) == [rest] + Reversed(acc) by {
      assert (acc + [rest])[..|acc|] == acc;
    }
    acc := acc + [rest];
    return Success(Reversed(acc));
  }
}
