/**
  The n-ary numeric tuple of the library (`Vector`, an `Array<number>`
  subclass).

  Components are `real`: every operation the index uses is an addition,
  a subtraction or a multiplication by a constant, which the reals model
  exactly. JavaScript reads a missing index as `undefined`; the comparison
  predicates below spell out what `!==`, `>=` do with it.
 */
module Vectors {

  type Vector = seq<real>

  function Max(a: nat, b: nat): nat {
    if a > b then a else b
  }

  /** Component i with the zero-extension `plus` and `minus` use. */
  function Component(v: Vector, i: nat): real {
    if i < |v| then v[i] else 0.0
  }

  /** v zero-extended to n components. */
  function Pad(v: Vector, n: nat): (r: Vector)
    requires |v| <= n
    ensures |r| == n
    ensures r[..|v|] == v
    ensures forall i :: |v| <= i < n ==> r[i] == 0.0
  {
    v + seq(n - |v|, _ => 0.0)
  }

  /** n zeros. */
  function Zeros(n: nat): Vector {
    seq(n, _ => 0.0)
  }

  /**
    `new Vector(...values)`. A single argument takes the first branch, which
    keeps it from being read as an `Array` length.
   */
  function Construct(values: seq<real>): (v: Vector)
    ensures v == values
  {
    if |values| == 1 then [values[0]] else values
  }

  /** `x`: component 0; for a one-component vector it is also `time`. */
  function X(v: Vector): (r: real)
    requires |v| >= 1
    ensures r in v && v == [r] + v[1..]
    ensures |v| == 1 ==> r == Time(v)
  {
    v[0]
  }

  /** `time`: the last component. */
  function Time(v: Vector): (r: real)
    requires |v| >= 1
    ensures r in v && v == v[..|v| - 1] + [r]
  {
    v[|v| - 1]
  }

  /**
    `mapToVector(f)`: f applied to every component and its index. `map`
    builds its result with the receiver's constructor, `new Vector(len)`,
    and for len = 0 the one-argument branch of that constructor stores the
    0 as a component: on the empty vector the result is `[0]`, and f is
    never called.
   */
  function MapToVector(v: Vector, f: (real, nat) -> real): (r: Vector)
    ensures |r| == Max(|v|, 1)
    ensures forall i :: 0 <= i < |v| ==> r[i] == f(v[i], i)
    ensures v == [] ==> r == [0.0]
  {
    if |v| == 0 then [0.0] else seq(|v|, i requires 0 <= i < |v| => f(v[i], i))
  }

  /** `plusScalar`; on the empty vector, `[0]` as for every `mapToVector`. */
  function PlusScalar(v: Vector, s: real): (r: Vector)
    ensures |r| == Max(|v|, 1)
    ensures forall i :: 0 <= i < |v| ==> r[i] == v[i] + s
    ensures v == [] ==> r == [0.0]
  {
    MapToVector(v, (x, _) => x + s)
  }

  /** `minusScalar`; on the empty vector, `[0]`. */
  function MinusScalar(v: Vector, s: real): (r: Vector)
    ensures |r| == Max(|v|, 1)
    ensures forall i :: 0 <= i < |v| ==> r[i] == v[i] - s
    ensures v == [] ==> r == [0.0]
  {
    MapToVector(v, (x, _) => x - s)
  }

  /** `scale`: every component times s; the empty vector gives `[0]`, which is 0 * s too. */
  function Scale(v: Vector, s: real): (r: Vector)
    ensures |r| == Max(|v|, 1)
    ensures forall i :: 0 <= i < |r| ==> r[i] == Component(v, i) * s
  {
    MapToVector(v, (x, _) => x * s)
  }

  /**
    `multiply`: the componentwise product, over the receiver's indices.
    A shorter `other` would contribute `undefined` and give NaN.
   */
  function Multiply(a: Vector, b: Vector): (r: Vector)
    requires |a| <= |b|
    ensures |r| == Max(|a|, 1)
    ensures forall i :: 0 <= i < |a| ==> r[i] == a[i] * b[i]
    ensures a == [] ==> r == [0.0]
  {
    MapToVector(a, (x, i) => x * (if 0 <= i < |b| then b[i] else 0.0))
  }

  /**
    `plus`: maps over the longer vector (the argument on a tie) and adds the
    other one's component where it has one. Two empty operands give `[0]`.
   */
  function Plus(a: Vector, b: Vector): (r: Vector)
    ensures |r| == Max(Max(|a|, |b|), 1)
    ensures forall i :: 0 <= i < |r| ==> r[i] == Component(a, i) + Component(b, i)
  {
    var big := if |a| > |b| then a else b;
    var small := if |a| > |b| then b else a;
    MapToVector(big, (x, i) => x + (if 0 <= i < |small| then small[i] else 0.0))
  }

  /** `minus`: `a.plus(b.scale(-1))`. */
  function Minus(a: Vector, b: Vector): (r: Vector)
    ensures |r| == Max(Max(|a|, |b|), 1)
    ensures forall i :: 0 <= i < |r| ==> r[i] == Component(a, i) - Component(b, i)
  {
    Plus(a, Scale(b, -1.0))
  }

  /** `value !== other[index]`, where a missing `other[index]` always differs. */
  predicate DiffersAt(a: Vector, b: Vector, i: nat)
    requires i < |a|
  {
    i >= |b| || a[i] != b[i]
  }

  /**
    `inequal`: some receiver index differs. A missing `other[index]` always
    differs, so this holds exactly when a is not a prefix of b.
   */
  predicate Inequal(a: Vector, b: Vector)
    ensures Inequal(a, b) <==> !(a <= b)
  {
    DifferenceIffNotPrefix(a, b);
    exists i: nat :: i < |a| && DiffersAt(a, b, i)
  }

  /** Some receiver index differs from b exactly when a is not a prefix of b. */
  lemma DifferenceIffNotPrefix(a: Vector, b: Vector)
    ensures (exists i: nat :: i < |a| && DiffersAt(a, b, i)) <==> !(a <= b)
  {
    if !(a <= b) {
      if |a| > |b| {
        assert DiffersAt(a, b, |b|);
      } else {
        assert a != b[..|a|];
        var i :| 0 <= i < |a| && a[i] != b[..|a|][i];
        assert DiffersAt(a, b, i);
      }
    }
  }

  /** `equal`: not `inequal`, so exactly "a is a prefix of b". */
  predicate Equal(a: Vector, b: Vector)
    ensures Equal(a, b) <==> a <= b
  {
    !Inequal(a, b)
  }

  /**
    `lesser`: no receiver index has `a[i] >= b[i]`; `x >= undefined` is
    false, so only the indices both vectors have are compared, strictly.
   */
  predicate Lesser(a: Vector, b: Vector)
    ensures Lesser(a, b) <==> forall i :: 0 <= i < |a| && i < |b| ==> a[i] < b[i]
  {
    !exists i :: 0 <= i < |a| && i < |b| && a[i] >= b[i]
  }

  /** `lesserOrEqual`: a prefix of b, or strictly lesser on the shared indices. */
  predicate LesserOrEqual(a: Vector, b: Vector)
    ensures LesserOrEqual(a, b) <==> a <= b || Lesser(a, b)
  {
    Equal(a, b) || Lesser(a, b)
  }

  /** `greater`: neither a prefix of b nor strictly lesser on the shared indices. */
  predicate Greater(a: Vector, b: Vector)
    ensures Greater(a, b) <==> !(a <= b) && exists i :: 0 <= i < |a| && i < |b| && a[i] >= b[i]
  {
    !LesserOrEqual(a, b)
  }

  /** `greaterOrEqual`: a prefix of b, or not strictly lesser on the shared indices. */
  predicate GreaterOrEqual(a: Vector, b: Vector)
    ensures GreaterOrEqual(a, b) <==> a <= b || !Lesser(a, b)
  {
    Equal(a, b) || Greater(a, b)
  }

  // ---------------------------------------------------------------------
  // Properties

  /** A single argument builds a one-component vector whose x and time agree. */
  lemma SingleArgument(x: real)
    ensures |Construct([x])| == 1
    ensures X(Construct([x])) == x && Time(Construct([x])) == x
  {
  }

  /**
    minusScalar by the same scalar undoes plusScalar, except on the empty
    vector: there plusScalar already gives `[0]`, and the result is `[-s]`.
   */
  lemma {:induction false} PlusScalarRoundTrip(v: Vector, s: real)
    ensures MinusScalar(PlusScalar(v, s), s) == if v == [] then [-s] else v
  {
    var r := MinusScalar(PlusScalar(v, s), s);
    if v != [] {
      assert |r| == |v|;
      forall i | 0 <= i < |v|
        ensures r[i] == v[i]
      {
        assert PlusScalar(v, s)[i] == v[i] + s;
      }
    }
  }

  /** plus is symmetric, whichever vector is longer. */
  lemma PlusCommutes(a: Vector, b: Vector)
    ensures Plus(a, b) == Plus(b, a)
  {
  }

  /** Adding the empty vector copies a non-empty vector; two empty vectors give `[0]`. */
  lemma PlusEmpty(a: Vector)
    ensures Plus(a, []) == Plus([], a) == if a == [] then [0.0] else a
  {
  }

  /** A vector minus itself is all zeros, one zero for the empty vector. */
  lemma MinusSelf(v: Vector)
    ensures Minus(v, v) == Zeros(Max(|v|, 1))
  {
  }

  /** Adding b back after subtracting it restores a, zero-extended. */
  lemma {:induction false} MinusPlusRoundTrip(a: Vector, b: Vector)
    ensures Plus(Minus(a, b), b) == Pad(a, Max(Max(|a|, |b|), 1))
  {
    var n := Max(Max(|a|, |b|), 1);
    var r := Plus(Minus(a, b), b);
    var p := Pad(a, n);
    assert |r| == n;
    forall i | 0 <= i < n
      ensures r[i] == p[i]
    {
      if i < |a| {
        assert p[i] == p[..|a|][i];
      }
    }
  }

  /**
    Scaling by a non-zero factor and then by its inverse gives the vector
    back; the empty vector comes back as `[0]`.
   */
  lemma ScaleRoundTrip(v: Vector, s: real)
    requires s != 0.0
    ensures Scale(Scale(v, s), 1.0 / s) == Pad(v, Max(|v|, 1))
  {
    var r := Scale(Scale(v, s), 1.0 / s);
    var p := Pad(v, Max(|v|, 1));
    forall i | 0 <= i < |r|
      ensures r[i] == p[i]
    {
      assert r[i] == Component(v, i) * s * (1.0 / s);
      if i < |v| {
        assert p[i] == p[..|v|][i];
      }
    }
  }

  /** `scale(s)` is `multiply` by the vector with s in every component. */
  lemma ScaleIsMultiply(v: Vector, s: real)
    ensures Scale(v, s) == Multiply(v, seq(|v|, _ => s))
  {
    var constant: Vector := seq(|v|, _ => s);
    var m := Multiply(v, constant);
    forall i | 0 <= i < |v|
      ensures m[i] == Scale(v, s)[i]
    {
      assert constant[i] == s;
    }
  }

  /** For equal lengths, `multiply` does not depend on the order of its operands. */
  lemma MultiplyCommutes(a: Vector, b: Vector)
    requires |a| == |b|
    ensures Multiply(a, b) == Multiply(b, a)
  {
  }

  /**
    Two `mapToVector` calls in a row are one call with the composed
    function, except on the empty vector: one call gives `[0]`, and the
    second one then maps that 0.
   */
  lemma MapToVectorFuses(v: Vector, f: (real, nat) -> real, g: (real, nat) -> real)
    ensures v != [] ==> MapToVector(MapToVector(v, f), g) == MapToVector(v, (x: real, i: nat) => g(f(x, i), i))
    ensures v == [] ==> MapToVector(MapToVector(v, f), g) == [g(0.0, 0)]
  {
  }

  /** equal is reflexive, and symmetric exactly for equal lengths. */
  lemma EqualSymmetryNeedsLengths(a: Vector, b: Vector)
    ensures Equal(a, a)
    ensures Equal(a, b) && Equal(b, a) <==> a == b
    ensures Equal(a, b) ==> (Equal(b, a) <==> |a| == |b|)
  {
  }

  /** equal([1], [1, 2]) holds but equal([1, 2], [1]) does not. */
  lemma EqualNotSymmetric()
    ensures Equal([1.0], [1.0, 2.0]) && !Equal([1.0, 2.0], [1.0])
  {
  }

  /** For equal lengths, lesser is componentwise strict order. */
  lemma LesserIsStrict(a: Vector, b: Vector)
    requires |a| == |b|
    ensures Lesser(a, b) <==> forall i :: 0 <= i < |a| ==> a[i] < b[i]
  {
  }

  /** A missing component never blocks lesser: anything is lesser than []. */
  lemma LesserIgnoresMissing(a: Vector)
    ensures Lesser(a, [])
  {
  }

  /**
    lesserOrEqual is not componentwise <=: (1, 2) against (1, 3) is neither
    equal nor strictly lesser, so it is false and greater is true.
   */
  lemma LesserOrEqualIsNotComponentwise()
    ensures !LesserOrEqual([1.0, 2.0], [1.0, 3.0])
    ensures Greater([1.0, 2.0], [1.0, 3.0])
  {
    var a: Vector := [1.0, 2.0];
    var b: Vector := [1.0, 3.0];
    assert a[1] != b[1];
    assert a[0] >= b[0];
  }

  /** greaterOrEqual is `equal || !lesser`. */
  lemma GreaterOrEqualIsNotLesser(a: Vector, b: Vector)
    ensures GreaterOrEqual(a, b) <==> Equal(a, b) || !Lesser(a, b)
  {
  }
}
