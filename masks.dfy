/** The eight data masks. A mask inverts every data, check and remainder
    module for which its predicate holds; the predicates are those of table 10
    of ISO/IEC 18004, written with Go's truncating `/` and `%`. */
module Masks {
  import opened BitMath

  /** `mfunc[m](i, j)` for row i and column j. */
  predicate MaskFunc(m: int, i: int, j: int)
    requires 0 <= m <= 7
  {
    match m
    case 0 => Rem(i + j, 2) == 0
    case 1 => Rem(i, 2) == 0
    case 2 => Rem(j, 3) == 0
    case 3 => Rem(i + j, 3) == 0
    case 4 => Rem(Quot(i, 2) + Quot(j, 3), 2) == 0
    case 5 => Rem(i * j, 2) + Rem(i * j, 3) == 0
    case 6 => Rem(Rem(i * j, 2) + Rem(i * j, 3), 2) == 0
    case 7 => Rem(Rem(i * j, 3) + Rem(i + j, 2), 2) == 0
  }

  /** `Mask.Invert(y, x)`: no mask below 0; a mask above 7 indexes past the
      end of the table, which Go turns into a panic, so it is excluded. */
  predicate Invert(m: int, y: int, x: int)
    requires m <= 7
  {
    if m < 0 then false else MaskFunc(m, y, x)
  }

  /** The mask conditions as the standard states them on module coordinates,
      which are never negative. */
  predicate StandardMask(m: int, i: nat, j: nat)
    requires 0 <= m <= 7
  {
    match m
    case 0 => (i + j) % 2 == 0
    case 1 => i % 2 == 0
    case 2 => j % 3 == 0
    case 3 => (i + j) % 3 == 0
    case 4 => (i / 2 + j / 3) % 2 == 0
    case 5 => (i * j) % 2 + (i * j) % 3 == 0
    case 6 => ((i * j) % 2 + (i * j) % 3) % 2 == 0
    case 7 => ((i * j) % 3 + (i + j) % 2) % 2 == 0
  }

  /** On the grid, where coordinates are never negative, Go's truncating
      arithmetic agrees with the standard's, so Invert is exactly the
      standard mask; a negative mask inverts nothing. */
  lemma InvertIsStandard(m: int, y: nat, x: nat)
    requires m <= 7
    ensures m < 0 ==> !Invert(m, y, x)
    ensures 0 <= m ==> (Invert(m, y, x) <==> StandardMask(m, y, x))
  {
    if 0 <= m {
      var p := y * x;
      QuotRemNat(y + x, 2);
      QuotRemNat(y + x, 3);
      QuotRemNat(y, 2);
      QuotRemNat(x, 3);
      QuotRemNat(p, 2);
      QuotRemNat(p, 3);
      QuotRemNat(y / 2 + x / 3, 2);
      QuotRemNat(p % 2 + p % 3, 2);
      QuotRemNat(p % 3 + (y + x) % 2, 2);
    }
  }

  lemma QuotRemNat(a: nat, b: int)
    requires b > 0
    ensures Quot(a, b) == a / b && Rem(a, b) == a % b
  {
  }
}
