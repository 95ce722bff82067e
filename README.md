# Checked integer arithmetic of gwbase's math header

This project models the overflow-checked integer helpers at the end of
`include/math.hpp`: `int_type_min` and `int_type_max`, which give the bounds of
an integer type, and the four templates `int_assign_add`, `int_assign_sub`,
`int_add` and `int_sub`. Each of the four takes a destination `X &dst` and two
operands `Y a`, `Z b`. It returns `true` when it refuses the operation
(overflow, underflow or loss of precision) and `false` when it succeeds. It
writes `dst` only on success.

`int_types.dfy` (module `IntTypes`) models the C++ integer types. A type is a
signedness and a width. Its values are what its bit patterns stand for: plain
binary when unsigned, two's complement when signed. The module defines the
bounds of a type, the conversion `T y = v;` (keep the low bits and reread
them), and the comparison `x == y` of operands of two types after the usual
arithmetic conversions (integral promotion to `int`, then the common type).

`checked_arith.dfy` (module `CheckedArith`) models the four templates as
functions. Each returns a `Checked(failed, dst)` value: the flag the template
returns, and the value `dst` holds afterwards. The inner step of
`int_assign_add` and `int_assign_sub` is modelled once, as `Store`. That step
is `X __y = __x;`, then the equality and sign test, then the store.

What is proved:

- The bounds are attained by some bit pattern and bound every bit pattern.
  The values of a type are exactly those of its bit patterns.
- Conversion lands in the target type. It agrees with its input modulo
  2^width. It is the only such value, and it leaves in-range values alone.
- Comparing after the usual arithmetic conversions is equivalent to
  mathematical equality only together with the sign test
  `(__x < 1) == (__y < 1)`. Without the sign test, `-1` equals the greatest
  value of a wide unsigned type.
- Each template fails exactly in the cases its guards and its store test
  refuse, and leaves `dst` untouched when it fails.
- When the exact result is a value of the type of `a`, `int_add` and `int_sub`
  succeed exactly when the result is a value of `X`, and then store the exact
  result. When it is not, they can report success with a wrong value
  (see Findings).

## Model

| member | source | states |
|---|---|---|
| IntTypes.IntTypeMin | include/math.hpp:1046-1052 | the least value of a type: some bit pattern stands for it and no bit pattern stands for less |
| IntTypes.IntTypeMax | include/math.hpp:1054-1060 | the greatest value of a type: some bit pattern stands for it, none for more; it is at least the least value, and the type holds exactly 2^width values |
| IntTypes.InRangeIffRepresentable | include/math.hpp:1046-1060 | a value lies between int_type_min and int_type_max exactly when some bit pattern of the type stands for it |
| IntTypes.DecodeEncode | include/math.hpp:1073 | reading back the low bits of a value of the type gives the value (conversion is lossless on in-range values) |
| IntTypes.EncodeDecode | include/math.hpp:1073 | taking the low bits of the value a pattern stands for gives the pattern back |
| IntTypes.Convert | include/math.hpp:1073 | `X __y = __x`: the result is a value of the target type, congruent to the input modulo 2^width, and equal to the input when the input is in range |
| IntTypes.ConvertUnique | include/math.hpp:1073 | conversion is the only in-range value congruent to its input |
| IntTypes.Promote | include/math.hpp:1074 | integral promotion: a type narrower than `int` becomes `int`, any other type stays itself; the result holds every value of the original |
| IntTypes.CommonType | include/math.hpp:1074 | the common type of `__x == __y` is one of the promoted operand types, as wide as both; when signed it holds every value of both; an unsigned promoted operand at least as wide as the other makes it unsigned |
| IntTypes.CxxEqual | include/math.hpp:1074 | `__x == __y`: both operands converted to their common type, then compared; equal values compare equal, and values of the same sign compare equal exactly when they are equal |
| IntTypes.CxxLessThanOne | include/math.hpp:1074 | `v < 1` with the literal an `int`, both sides converted to the common type of `v`'s type and `int`; for an unsigned common type this is unsigned arithmetic, and it still agrees with the integer `v < 1` because such a `v` is never negative |
| CheckedArith.SameSide | include/math.hpp:1074 | the sign test `(__x < 1) == (__y < 1)`, each side evaluated as C++ does (in unsigned arithmetic when the operand's type is unsigned and at least as wide as `int`); it holds exactly when both values are positive or neither is |
| CheckedArith.EqualityWithSignTest | include/math.hpp:1074 | `__x == __y` after the usual arithmetic conversions, together with `(__x < 1) == (__y < 1)`, holds exactly when the two values are equal |
| IntTypes.WrapNegative | include/math.hpp:1074 | in an unsigned common type a non-negative operand keeps its value and a negative one gains the modulus, ending up positive |
| CheckedArith.SignTestNeeded | include/math.hpp:1074 | a signed -1 compares equal to the greatest value of any unsigned type at least as wide as `int` and as the signed type, and only the sign test tells them apart |
| CheckedArith.Store | include/math.hpp:1073-1074 | the store step fails exactly when the value of type `Y` is not a value of `X`; on success `dst` becomes that value, on failure it is unchanged |
| CheckedArith.IntAssignAdd | include/math.hpp:1062-1075 | fails exactly when the sum, reduced into `Y`, is not a value of `X`; on success `dst` is that reduced sum (congruent to `a + b` modulo 2^width of `Y`); on failure `dst` is unchanged; when `a + b` fits `Y` it fails exactly when `a + b` does not fit `X` and otherwise stores `a + b` |
| CheckedArith.IntAssignSub | include/math.hpp:1077-1090 | the same for the difference `a - b` |
| CheckedArith.IntAdd | include/math.hpp:1092-1108 | fails exactly when `b < 1` and `a + b` is below the least value of `X`, or `b >= 1` and `a + b` is above the greatest, or the sum reduced into `Y` is not a value of `X`; `dst` is unchanged on failure; when `a + b` fits `Y`, it fails exactly when `a + b` does not fit `X` and otherwise stores `a + b` |
| CheckedArith.IntSub | include/math.hpp:1110-1127 | fails exactly when `b < 1` and `a - b` is above the greatest value of `X`, or `b >= 1` and `a - b` is below the least, or the difference reduced into `Y` is not a value of `X`; `dst` is unchanged on failure; when `a - b` fits `Y`, it fails exactly when `a - b` does not fit `X` and otherwise stores `a - b` |
| CheckedArith.IntAddWrapsInAddendType | include/math.hpp:1072 | `signed char` 100 plus `int` 100 into an `int` destination is reported as success and stores -56 |
| CheckedArith.IntSubWrapsInMinuendType | include/math.hpp:1087 | `signed char` -100 minus `int` 100 into an `int` destination is reported as success and stores 56 |
| CheckedArith.StoreExact | include/math.hpp:1073-1074 | the intended store step: the exact value goes into `dst` exactly when it is a value of `X`; otherwise `dst` is unchanged |
| CheckedArith.IntAddExact | include/math.hpp:1092-1108 | the promised int_add: fails exactly when `a + b` is not a value of `X`; otherwise stores `a + b`; `dst` unchanged on failure |
| CheckedArith.IntSubExact | include/math.hpp:1110-1127 | the promised int_sub: fails exactly when `a - b` is not a value of `X`; otherwise stores `a - b`; `dst` unchanged on failure |
| CheckedArith.IntAddMatchesExact | include/math.hpp:1092-1108 | int_add equals the promised version whenever `a + b` fits the type of `a`; when it does not, any success stores a value other than `a + b` |
| CheckedArith.IntSubMatchesExact | include/math.hpp:1110-1127 | int_sub equals the promised version whenever `a - b` fits the type of `a`; when it does not, any success stores a value other than `a - b` |

## Left out

- The single-precision scalar, vector, quaternion and matrix functions, interpolation and tolerance comparison of include/math.hpp: only their prototypes are in the header and they work on floating point.
- The WELL512 random number generator (`rng_state_t`, `random_*`): only declarations are in the header.
- src/main.cpp (window and GL context setup, texture and shader loading, rendering, the fixed-timestep loop) and include/display.hpp: I/O, graphics calls and a double-precision clock.
- The sprite batch, sprite effect and shader descriptor code: glsprite.hpp and glshader.hpp are not part of this model.
- IntAdd: the guards `int_type_min<X>() - b <= a` and `int_type_max<X>() - b >= a` are evaluated over mathematical integers, not with the usual arithmetic conversions between `X`, `Y` and `Z`. With mixed signedness the C++ guard can differ, for example when a negative operand is compared as unsigned.
- IntSub: the same for `int_type_max<X>() + b >= a` and `int_type_min<X>() + b <= a`.
- IntAssignAdd: `a + b` is taken as the mathematical sum reduced into `Y`. This equals the C++ result because the common type is never narrower than `Y`. A signed overflow in the common type, which C++ leaves undefined, is taken to wrap.
- IntAssignSub: the same for `a - b`.
- IntTypes.Convert: out-of-range conversion to a signed type wraps modulo 2^width. C++20 requires this; earlier standards leave it to the implementation.
- IntTypes.CommonType: integer conversion rank is taken to be the width. On platforms where two types share a width (`long` and `long long`) the common type can differ in name but not in range.
- IntTypes.Valid admits any width of at least 8 bits, not only 8, 16, 32 and 64. `bool` and the character types with special rules are not modelled as `X`, `Y` or `Z`.

## Findings

| source | as written | input that shows it | evidently intended | confidence | as-written member | corrected member |
|---|---|---|---|---|---|---|
| include/math.hpp:1072 (via int_add, 1092-1108) | `Y __x = a+b` keeps the sum in the type of `a`, so a sum that overflows `Y` wraps and can then pass both the bound guard and the store test | `X = int`, `Y = signed char`, `Z = int`, `a = 100`, `b = 100`: returns `false` (success) and stores -56 | succeed exactly when `a + b` is a value of `X`, and then store `a + b` ("no loss of precision or overflow") | not executed | CheckedArith.IntAddWrapsInAddendType | CheckedArith.IntAddExact |
| include/math.hpp:1087 (via int_sub, 1110-1127) | `Y __x = a-b` keeps the difference in the type of `a`, with the same effect | `X = int`, `Y = signed char`, `Z = int`, `a = -100`, `b = 100`: returns `false` (success) and stores 56 | succeed exactly when `a - b` is a value of `X`, and then store `a - b` | not executed | CheckedArith.IntSubWrapsInMinuendType | CheckedArith.IntSubExact |
