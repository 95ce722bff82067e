/**
 The overflow-checked integer arithmetic at the end of include/math.hpp:
 int_assign_add, int_assign_sub, int_add and int_sub.

 Each C++ template takes a destination `X &dst` and two operands `Y a`,
 `Z b`, returns `true` when it REFUSED the operation (overflow, underflow or
 loss of precision) and `false` when it succeeded, and writes `dst` only on
 success. Here each is a function that returns that flag together with the
 value `dst` holds afterwards.
 */
module CheckedArith {
  import opened IntTypes

  /** The outcome of a checked operation: the returned flag (`true` means the
      operation failed) and the destination's value afterwards. */
  datatype Checked = Checked(failed: bool, dst: int)

  /** The sign test `(__x < 1) == (__y < 1)` on a value `x` of type `s` and a
      value `y` of type `t`, each side compared in C++: both values positive,
      or neither. */
  function SameSide(s: IntType, x: int, t: IntType, y: int): (r: bool)
    requires Valid(s) && Valid(t) && InRange(s, x) && InRange(t, y)
    ensures r <==> ((x < 1) == (y < 1))
  {
    CxxLessThanOne(s, x) == CxxLessThanOne(t, y)
  }

  /** Comparing after the usual arithmetic conversions, together with the sign
      test, is comparing the mathematical values. */
  lemma EqualityWithSignTest(s: IntType, x: int, t: IntType, y: int)
    requires Valid(s) && Valid(t) && InRange(s, x) && InRange(t, y)
    ensures CxxEqual(s, x, t, y) && SameSide(s, x, t, y) <==> x == y
  {
    var c := CommonType(s, t);
    var cx, cy := Convert(c, x), Convert(c, y);
    assert CxxEqual(s, x, t, y) <==> cx == cy;
    if c.signed {
      KeptByWiderType(s, c, x);
      KeptByWiderType(t, c, y);
    } else {
      WrapNegative(s, c, x);
      WrapNegative(t, c, y);
      SignTestSeparates(x, y, cx, cy, Modulus(c));
    }
  }

  /** After a negative value is wrapped to a positive one, equal wrapped values
      with the same sign come from equal values. */
  lemma SignTestSeparates(x: int, y: int, cx: int, cy: int, m: int)
    requires x >= 0 ==> cx == x
    requires x < 0 ==> cx == x + m && cx >= 1
    requires y >= 0 ==> cy == y
    requires y < 0 ==> cy == y + m && cy >= 1
    ensures cx == cy && ((x < 1) == (y < 1)) <==> x == y
  {
  }

  /** Without the sign test the comparison alone is not enough: a negative value
      of a signed type compares equal to a large value of an unsigned type at
      least as wide as `int` and as the signed type. */
  lemma {:induction false} SignTestNeeded(s: IntType, t: IntType)
    requires Valid(s) && Valid(t) && s.signed && !t.signed && t.bits >= 32 && t.bits >= s.bits
    ensures CxxEqual(s, -1, t, IntTypeMax(t)) && !SameSide(s, -1, t, IntTypeMax(t))
  {
    assert InRange(s, -1) by {
      assert Pow2(s.bits - 1) >= 1;
    }
    assert CommonType(s, t) == t;
    WrapNegative(s, t, -1);
  }

  /** The store shared by int_assign_add and int_assign_sub: `X __y = __x;`,
      then `dst = __y` and `false` if `__x == __y` and the two have the same
      sign, `true` otherwise. `x` is the value `__x` of type `Y`. */
  function Store(X: IntType, Y: IntType, dst: int, x: int): (r: Checked)
    requires Valid(X) && Valid(Y) && InRange(X, dst) && InRange(Y, x)
    ensures r.failed <==> !InRange(X, x)
    ensures !r.failed ==> r.dst == x
    ensures r.failed ==> r.dst == dst
  {
    var y := Convert(X, x);
    EqualityWithSignTest(Y, x, X, y);
    if CxxEqual(Y, x, X, y) && SameSide(Y, x, X, y) then Checked(false, y) else Checked(true, dst)
  }

  /** int_assign_add: the sum is first held in the type `Y` of `a`, then stored
      into `dst` if it is a value of `X`. */
  function IntAssignAdd(X: IntType, Y: IntType, Z: IntType, dst: int, a: int, b: int): (r: Checked)
    requires Valid(X) && Valid(Y) && Valid(Z)
    requires InRange(X, dst) && InRange(Y, a) && InRange(Z, b)
    ensures r.failed <==> !InRange(X, Convert(Y, a + b))
    ensures r.failed ==> r.dst == dst
    ensures !r.failed ==> r.dst == Convert(Y, a + b) && Congruent(r.dst, a + b, Modulus(Y))
    ensures InRange(Y, a + b) ==> (r.failed <==> !InRange(X, a + b))
    ensures InRange(Y, a + b) && !r.failed ==> r.dst == a + b
  {
    Store(X, Y, dst, Convert(Y, a + b))
  }

  /** int_assign_sub: the difference is first held in the type `Y` of `a`, then
      stored into `dst` if it is a value of `X`. */
  function IntAssignSub(X: IntType, Y: IntType, Z: IntType, dst: int, a: int, b: int): (r: Checked)
    requires Valid(X) && Valid(Y) && Valid(Z)
    requires InRange(X, dst) && InRange(Y, a) && InRange(Z, b)
    ensures r.failed <==> !InRange(X, Convert(Y, a - b))
    ensures r.failed ==> r.dst == dst
    ensures !r.failed ==> r.dst == Convert(Y, a - b) && Congruent(r.dst, a - b, Modulus(Y))
    ensures InRange(Y, a - b) ==> (r.failed <==> !InRange(X, a - b))
    ensures InRange(Y, a - b) && !r.failed ==> r.dst == a - b
  {
    Store(X, Y, dst, Convert(Y, a - b))
  }

  /** int_add: a non-positive `b` is checked against the least value of `X`, a
      positive one against the greatest; a sum that passes goes through
      int_assign_add. */
  function IntAdd(X: IntType, Y: IntType, Z: IntType, dst: int, a: int, b: int): (r: Checked)
    requires Valid(X) && Valid(Y) && Valid(Z)
    requires InRange(X, dst) && InRange(Y, a) && InRange(Z, b)
    ensures r.failed <==>
      || (b < 1 && a + b < IntTypeMin(X))
      || (b >= 1 && a + b > IntTypeMax(X))
      || !InRange(X, Convert(Y, a + b))
    ensures r.failed ==> r.dst == dst
    ensures !r.failed ==> r.dst == Convert(Y, a + b) && Congruent(r.dst, a + b, Modulus(Y))
    ensures InRange(Y, a + b) ==> (r.failed <==> !InRange(X, a + b))
    ensures InRange(Y, a + b) && !r.failed ==> r.dst == a + b
  {
    if b < 1 then
      if IntTypeMin(X) - b <= a then IntAssignAdd(X, Y, Z, dst, a, b) else Checked(true, dst)
    else
      if IntTypeMax(X) - b >= a then IntAssignAdd(X, Y, Z, dst, a, b) else Checked(true, dst)
  }

  /** int_sub: a non-positive `b` is checked against the greatest value of `X`,
      a positive one against the least; a difference that passes goes through
      int_assign_sub. */
  function IntSub(X: IntType, Y: IntType, Z: IntType, dst: int, a: int, b: int): (r: Checked)
    requires Valid(X) && Valid(Y) && Valid(Z)
    requires InRange(X, dst) && InRange(Y, a) && InRange(Z, b)
    ensures r.failed <==>
      || (b < 1 && a - b > IntTypeMax(X))
      || (b >= 1 && a - b < IntTypeMin(X))
      || !InRange(X, Convert(Y, a - b))
    ensures r.failed ==> r.dst == dst
    ensures !r.failed ==> r.dst == Convert(Y, a - b) && Congruent(r.dst, a - b, Modulus(Y))
    ensures InRange(Y, a - b) ==> (r.failed <==> !InRange(X, a - b))
    ensures InRange(Y, a - b) && !r.failed ==> r.dst == a - b
  {
    if b < 1 then
      if IntTypeMax(X) + b >= a then IntAssignSub(X, Y, Z, dst, a, b) else Checked(true, dst)
    else
      if IntTypeMin(X) + b <= a then IntAssignSub(X, Y, Z, dst, a, b) else Checked(true, dst)
  }

  /** A sum that wraps in the type of `a` passes both checks of int_add: a
      `signed char` 100 plus an `int` 100 is reported as a success and stores
      -56 into an `int`. */
  lemma IntAddWrapsInAddendType()
    ensures IntAdd(Int, SChar, Int, 0, 100, 100) == Checked(false, -56)
  {
    assert Pow2(8) == 256;
    Pow2Monotone(8, 31);
    assert Congruent(-56, 200, Modulus(SChar)) by {
      DivModUnique(-256, 256, -1, 0);
    }
    ConvertUnique(SChar, 200, -56);
  }

  /** The same for int_sub: `signed char` -100 minus `int` 100 stores 56. */
  lemma IntSubWrapsInMinuendType()
    ensures IntSub(Int, SChar, Int, 0, -100, 100) == Checked(false, 56)
  {
    assert Pow2(8) == 256;
    Pow2Monotone(8, 31);
    assert Congruent(56, -200, Modulus(SChar)) by {
      DivModUnique(256, 256, 1, 0);
    }
    ConvertUnique(SChar, -200, 56);
  }

  /** The store as evidently intended: the exact value `v`, not first reduced
      into a narrower type, goes into `dst` when it is a value of `X`. */
  function StoreExact(X: IntType, dst: int, v: int): (r: Checked)
    requires Valid(X) && InRange(X, dst)
    ensures r.failed <==> !InRange(X, v)
    ensures !r.failed ==> r.dst == v
    ensures r.failed ==> r.dst == dst
  {
    var y := Convert(X, v);
    if y == v then Checked(false, y) else Checked(true, dst)
  }

  /** int_add as its documentation promises: it succeeds exactly when `a + b`
      is a value of `X`, and then stores `a + b`. The guards of int_add are
      kept, so that only the store differs; `Y` and `Z` only type the
      operands. */
  function IntAddExact(X: IntType, Y: IntType, Z: IntType, dst: int, a: int, b: int): (r: Checked)
    requires Valid(X) && Valid(Y) && Valid(Z)
    requires InRange(X, dst) && InRange(Y, a) && InRange(Z, b)
    ensures r.failed <==> !InRange(X, a + b)
    ensures !r.failed ==> r.dst == a + b
    ensures r.failed ==> r.dst == dst
  {
    if b < 1 then
      if IntTypeMin(X) - b <= a then StoreExact(X, dst, a + b) else Checked(true, dst)
    else
      if IntTypeMax(X) - b >= a then StoreExact(X, dst, a + b) else Checked(true, dst)
  }

  /** int_sub as its documentation promises: it succeeds exactly when `a - b`
      is a value of `X`, and then stores `a - b`. The guards of int_sub are
      kept, so that only the store differs; `Y` and `Z` only type the
      operands. */
  function IntSubExact(X: IntType, Y: IntType, Z: IntType, dst: int, a: int, b: int): (r: Checked)
    requires Valid(X) && Valid(Y) && Valid(Z)
    requires InRange(X, dst) && InRange(Y, a) && InRange(Z, b)
    ensures r.failed <==> !InRange(X, a - b)
    ensures !r.failed ==> r.dst == a - b
    ensures r.failed ==> r.dst == dst
  {
    if b < 1 then
      if IntTypeMax(X) + b >= a then StoreExact(X, dst, a - b) else Checked(true, dst)
    else
      if IntTypeMin(X) + b <= a then StoreExact(X, dst, a - b) else Checked(true, dst)
  }

  /** int_add keeps its promise exactly when the sum is a value of the type of
      `a`: it then agrees with IntAddExact, and otherwise the sum it reports as
      stored is not the sum. */
  lemma IntAddMatchesExact(X: IntType, Y: IntType, Z: IntType, dst: int, a: int, b: int)
    requires Valid(X) && Valid(Y) && Valid(Z)
    requires InRange(X, dst) && InRange(Y, a) && InRange(Z, b)
    ensures InRange(Y, a + b) ==> IntAdd(X, Y, Z, dst, a, b) == IntAddExact(X, Y, Z, dst, a, b)
    ensures !InRange(Y, a + b) && !IntAdd(X, Y, Z, dst, a, b).failed ==> IntAdd(X, Y, Z, dst, a, b).dst != a + b
  {
  }

  /** int_sub keeps its promise exactly when the difference is a value of the
      type of `a`. */
  lemma IntSubMatchesExact(X: IntType, Y: IntType, Z: IntType, dst: int, a: int, b: int)
    requires Valid(X) && Valid(Y) && Valid(Z)
    requires InRange(X, dst) && InRange(Y, a) && InRange(Z, b)
    ensures InRange(Y, a - b) ==> IntSub(X, Y, Z, dst, a, b) == IntSubExact(X, Y, Z, dst, a, b)
    ensures !InRange(Y, a - b) && !IntSub(X, Y, Z, dst, a, b).failed ==> IntSub(X, Y, Z, dst, a, b).dst != a - b
  {
  }
}
