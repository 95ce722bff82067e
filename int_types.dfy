/**
 The fixed-width integer types of C++ as seen by the checked arithmetic of
 include/math.hpp: which values a type holds (the bounds returned by
 int_type_min and int_type_max), how a value is converted to a type
 (`T y = v;`), and how two operands of different types are compared after
 the usual arithmetic conversions (`x == y`).

 Values are mathematical integers; a type is a signedness and a width, and
 its values are the readings of its bit patterns (plain binary for unsigned
 types, two's complement for signed ones).
 */
module IntTypes {

  /** A C++ integer type: signed or unsigned, and its width in bits. */
  datatype IntType = IntType(signed: bool, bits: nat)

  /** A width of at least that of char. The standard types are 8, 16, 32 or
      64 bits wide; nothing below depends on which. */
  predicate Valid(t: IntType) {
    t.bits >= 8
  }

  /** `int`, the target of the integral promotions. */
  const Int: IntType := IntType(true, 32)

  /** `signed char`. */
  const SChar: IntType := IntType(true, 8)

  function Pow2(n: nat): (r: nat)
    ensures r >= 1
  {
    if n == 0 then 1 else 2 * Pow2(n - 1)
  }

  lemma {:induction false} Pow2Monotone(i: nat, j: nat)
    requires i <= j
    ensures Pow2(i) <= Pow2(j)
  {
    if i < j {
      Pow2Monotone(i, j - 1);
    }
  }

  /** The number of bit patterns of `t`. */
  function Modulus(t: IntType): nat {
    Pow2(t.bits)
  }

  /** The value that the bit pattern `p` stands for in type `t`. */
  function Decode(t: IntType, p: nat): int
    requires Valid(t) && p < Modulus(t)
  {
    if t.signed && p >= Pow2(t.bits - 1) then p - Modulus(t) else p
  }

  /** The low `t.bits` bits of `v`, as a bit pattern. */
  function Encode(t: IntType, v: int): (p: nat)
    requires Valid(t)
    ensures p < Modulus(t)
  {
    v % Modulus(t)
  }

  /** `a` and `b` agree modulo `m`. */
  predicate Congruent(a: int, b: int, m: int)
    requires m > 0
  {
    (a - b) % m == 0
  }

  /** std::numeric_limits<T>::min(): some bit pattern of `t` stands for it,
      and no bit pattern stands for anything smaller. */
  function IntTypeMin(t: IntType): (r: int)
    requires Valid(t)
    ensures exists p :: 0 <= p < Modulus(t) && Decode(t, p) == r
    ensures forall p :: 0 <= p < Modulus(t) ==> r <= Decode(t, p)
  {
    var half: int := Pow2(t.bits - 1);
    var least := if t.signed then half else 0;
    assert Decode(t, least) == if t.signed then -half else 0;
    if t.signed then -half else 0
  }

  /** std::numeric_limits<T>::max(): some bit pattern of `t` stands for it,
      and no bit pattern stands for anything larger. */
  function IntTypeMax(t: IntType): (r: int)
    requires Valid(t)
    ensures exists p :: 0 <= p < Modulus(t) && Decode(t, p) == r
    ensures forall p :: 0 <= p < Modulus(t) ==> Decode(t, p) <= r
    ensures IntTypeMin(t) <= r
    ensures r - IntTypeMin(t) + 1 == Modulus(t)
  {
    var greatest := if t.signed then Pow2(t.bits - 1) - 1 else Modulus(t) - 1;
    assert Decode(t, greatest) == greatest;
    greatest
  }

  /** `v` is a value of type `t`. */
  predicate InRange(t: IntType, v: int)
    requires Valid(t)
  {
    IntTypeMin(t) <= v <= IntTypeMax(t)
  }

  /** Euclidean division has one quotient and one remainder. */
  lemma DivModUnique(v: int, m: int, q: int, p: int)
    requires m > 0 && 0 <= p < m && v == q * m + p
    ensures v % m == p && v / m == q
  {
    var q', p' := v / m, v % m;
    assert v == q' * m + p';
    assert (q - q') * m == p' - p;
    SmallMultipleIsZero(q - q', m);
  }

  /** The only multiple of `m` strictly between `-m` and `m` is zero. */
  lemma SmallMultipleIsZero(d: int, m: int)
    requires m > 0 && -m < d * m < m
    ensures d == 0
  {
  }

  /** Reading the low bits of a value of `t` gives the value back. */
  lemma DecodeEncode(t: IntType, v: int)
    requires Valid(t) && InRange(t, v)
    ensures Decode(t, Encode(t, v)) == v
  {
    if v >= 0 {
      DivModUnique(v, Modulus(t), 0, v);
    } else {
      DivModUnique(v, Modulus(t), -1, v + Modulus(t));
    }
  }

  /** Taking the low bits of the value of a pattern gives the pattern back. */
  lemma EncodeDecode(t: IntType, p: nat)
    requires Valid(t) && p < Modulus(t)
    ensures Encode(t, Decode(t, p)) == p
  {
    if Decode(t, p) == p {
      DivModUnique(p, Modulus(t), 0, p);
    } else {
      DivModUnique(p - Modulus(t), Modulus(t), -1, p);
    }
  }

  /** The values of `t` are exactly the values its bit patterns stand for. */
  lemma InRangeIffRepresentable(t: IntType, v: int)
    requires Valid(t)
    ensures InRange(t, v) <==> exists p :: 0 <= p < Modulus(t) && Decode(t, p) == v
  {
    if InRange(t, v) {
      DecodeEncode(t, v);
      assert 0 <= Encode(t, v) < Modulus(t) && Decode(t, Encode(t, v)) == v;
    }
  }

  /** A value minus its own low bits is a multiple of the modulus. */
  lemma EncodeCongruent(t: IntType, v: int)
    requires Valid(t)
    ensures Congruent(Encode(t, v), v, Modulus(t))
  {
    var m := Modulus(t);
    var q := v / m;
    assert Encode(t, v) - v == -q * m;
    DivModUnique(Encode(t, v) - v, m, -q, 0);
  }

  /** The conversion `T y = v;` of any integer value to type `t`: the value of
      `t` that agrees with `v` in the low `t.bits` bits (C++20 [conv.integral];
      earlier standards leave out-of-range signed results to the implementation,
      and every mainstream compiler does this). */
  function Convert(t: IntType, v: int): (r: int)
    requires Valid(t)
    ensures InRange(t, r)
    ensures Congruent(r, v, Modulus(t))
    ensures InRange(t, v) ==> r == v
  {
    var p := Encode(t, v);
    EncodeCongruent(t, v);
    InRangeIffRepresentable(t, Decode(t, p));
    assert Decode(t, p) == p || Decode(t, p) + Modulus(t) == p;
    CongruentShift(Decode(t, p), p, v, Modulus(t));
    if InRange(t, v) then
      DecodeEncode(t, v);
      Decode(t, p)
    else
      Decode(t, p)
  }

  lemma CongruentShift(r: int, p: int, v: int, m: int)
    requires m > 0 && Congruent(p, v, m)
    requires r == p || r + m == p
    ensures Congruent(r, v, m)
  {
    var q := (p - v) / m;
    assert p - v == q * m;
    if r == p {
      DivModUnique(r - v, m, q, 0);
    } else {
      assert r - v == (q - 1) * m;
      DivModUnique(r - v, m, q - 1, 0);
    }
  }

  /** Conversion is characterised without reference to bits: its result is the
      one value of `t` congruent to the input. */
  lemma ConvertUnique(t: IntType, v: int, r: int)
    requires Valid(t) && InRange(t, r) && Congruent(r, v, Modulus(t))
    ensures r == Convert(t, v)
  {
    var c := Convert(t, v);
    CongruentInWindow(r, c, v, Modulus(t), IntTypeMin(t));
  }

  /** Two values congruent to `v` within one window of width `m` coincide. */
  lemma CongruentInWindow(r: int, c: int, v: int, m: int, lo: int)
    requires m > 0 && lo <= r < lo + m && lo <= c < lo + m
    requires Congruent(r, v, m) && Congruent(c, v, m)
    ensures r == c
  {
    var q1, q2 := (r - v) / m, (c - v) / m;
    assert r - v == q1 * m;
    assert c - v == q2 * m;
    assert r - c == (q1 - q2) * m;
    SmallMultipleIsZero(q1 - q2, m);
  }

  /** Every value of `s` is a value of `t`. */
  predicate Fits(s: IntType, t: IntType)
    requires Valid(s) && Valid(t)
  {
    IntTypeMin(t) <= IntTypeMin(s) && IntTypeMax(s) <= IntTypeMax(t)
  }

  /** Integral promotion: every type narrower than `int` becomes `int`. */
  function Promote(t: IntType): (p: IntType)
    requires Valid(t)
    ensures Valid(p) && p.bits >= 32 && p.bits >= t.bits
    ensures Fits(t, p)
    ensures t.bits < 32 ==> p == Int
    ensures t.bits >= 32 ==> p == t
  {
    if t.bits < 32 then
      Pow2Monotone(t.bits, 31);
      Int
    else t
  }

  /** A type at least as wide as `s`, and signed whenever `s` is signed
      (strictly wider when only it is), holds every value of `s`. */
  lemma FitsWhenWider(s: IntType, t: IntType)
    requires Valid(s) && Valid(t) && s.bits <= t.bits
    requires s.signed ==> t.signed
    requires t.signed && !s.signed ==> s.bits < t.bits
    ensures Fits(s, t)
  {
    if s.signed {
      Pow2Monotone(s.bits - 1, t.bits - 1);
    } else if t.signed {
      Pow2Monotone(s.bits, t.bits - 1);
    } else {
      Pow2Monotone(s.bits, t.bits);
    }
  }

  /** The common type of the usual arithmetic conversions for two integer
      operands, taking a wider type to have the greater rank. */
  function CommonType(s: IntType, t: IntType): (c: IntType)
    requires Valid(s) && Valid(t)
    ensures Valid(c) && c.bits >= 32 && c.bits >= s.bits && c.bits >= t.bits
    ensures c.signed ==> Fits(s, c) && Fits(t, c)
    ensures c == Promote(s) || c == Promote(t)
    ensures !Promote(s).signed && Promote(s).bits >= Promote(t).bits ==> !c.signed
    ensures !Promote(t).signed && Promote(t).bits >= Promote(s).bits ==> !c.signed
  {
    var ps, pt := Promote(s), Promote(t);
    if ps.signed == pt.signed then
      if ps.bits >= pt.bits then
        if ps.signed then FitsWhenWider(pt, ps); ps else ps
      else
        if pt.signed then FitsWhenWider(ps, pt); pt else pt
    else if !ps.signed && ps.bits >= pt.bits then ps
    else if !pt.signed && pt.bits >= ps.bits then pt
    else if ps.signed then
      // the signed operand is strictly wider, so it holds every value of the other
      FitsWhenWider(pt, ps);
      ps
    else
      FitsWhenWider(ps, pt);
      pt
  }

  /** Converting a value to a type that holds every value of its own type keeps it. */
  lemma KeptByWiderType(s: IntType, c: IntType, x: int)
    requires Valid(s) && Valid(c) && Fits(s, c) && InRange(s, x)
    ensures Convert(c, x) == x
  {
    assert InRange(c, x);
  }

  /** Converting a value of `s` to a wider unsigned type `c` keeps it when it
      is not negative and adds the modulus of `c` when it is. */
  lemma WrapNegative(s: IntType, c: IntType, x: int)
    requires Valid(s) && Valid(c) && !c.signed && c.bits >= s.bits && InRange(s, x)
    ensures x >= 0 ==> Convert(c, x) == x
    ensures x < 0 ==> Convert(c, x) == x + Modulus(c) && Convert(c, x) >= 1
  {
    Pow2Monotone(s.bits, c.bits);
    if x < 0 {
      Pow2Monotone(s.bits - 1, c.bits - 1);
      assert Congruent(x + Modulus(c), x, Modulus(c)) by {
        DivModUnique(Modulus(c), Modulus(c), 1, 0);
      }
      ConvertUnique(c, x, x + Modulus(c));
    }
  }

  /** The C++ comparison `x == y` of a value `x` of type `s` with a value `y`
      of type `t`: both are converted to their common type first. Equal values
      compare equal, and values of the same sign compare as integers; a
      negative and a non-negative value can compare equal (see SignTestNeeded). */
  function CxxEqual(s: IntType, x: int, t: IntType, y: int): (r: bool)
    requires Valid(s) && Valid(t) && InRange(s, x) && InRange(t, y)
    ensures x == y ==> r
    ensures (x < 0) == (y < 0) ==> (r <==> x == y)
  {
    var c := CommonType(s, t);
    if c.signed then
      KeptByWiderType(s, c, x);
      KeptByWiderType(t, c, y);
      Convert(c, x) == Convert(c, y)
    else
      WrapNegative(s, c, x);
      WrapNegative(t, c, y);
      Convert(c, x) == Convert(c, y)
  }

  /** The C++ comparison `v < 1` for a value `v` of type `t`. The literal is an
      `int`, so both sides are converted to the common type of `t` and `int`,
      which is unsigned for an unsigned `t` at least as wide as `int`; the
      comparison still agrees with the integers because such a `v` is never
      negative. */
  function CxxLessThanOne(t: IntType, v: int): (r: bool)
    requires Valid(t) && InRange(t, v)
    ensures r <==> v < 1
  {
    var c := CommonType(t, Int);
    assert InRange(Int, 1) by {
      Pow2Monotone(1, 31);
    }
    if c.signed then
      KeptByWiderType(t, c, v);
      KeptByWiderType(Int, c, 1);
      Convert(c, v) < Convert(c, 1)
    else
      assert c == Promote(t) && t == c && v >= 0;
      WrapNegative(t, c, v);
      WrapNegative(Int, c, 1);
      Convert(c, v) < Convert(c, 1)
  }
}
