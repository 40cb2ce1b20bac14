/** Shapes shared by every component: optional columns, operation results, and counting over finite maps. */
module Prelude {

  datatype Option<+T> = None | Some(value: T)

  datatype Result<+T, +E> = Ok(value: T) | Err(error: E)

  /** Milliseconds since the epoch. */
  type Time = int

  function Min(a: int, b: int): int {
    if a <= b then a else b
  }

  function Max(a: int, b: int): int {
    if a >= b then a else b
  }

  function Count(b: bool): nat {
    if b then 1 else 0
  }

  /** `Math.round(part / whole * 100)`: the nearest whole percentage, a half rounding up. */
  function Percent(part: nat, whole: nat): nat
    requires whole > 0
  {
    (200 * part + whole) / (2 * whole)
  }

  /** The rounded percentage is at most half a point away from the exact one, and a half is rounded up. */
  lemma PercentIsNearest(part: nat, whole: nat)
    requires whole > 0
    ensures 200 * part < 2 * (whole * Percent(part, whole)) + whole
    ensures 2 * (whole * Percent(part, whole)) <= 200 * part + whole
  {
  }

  lemma PercentInRange(part: nat, whole: nat)
    requires 0 < whole && part <= whole
    ensures Percent(part, whole) <= 100
    ensures part == whole ==> Percent(part, whole) == 100
  {
    PercentIsNearest(part, whole);
    if Percent(part, whole) > 100 { ProductGrows(whole, 101, Percent(part, whole)); }
    if Percent(part, whole) < 100 { ProductGrows(whole, Percent(part, whole), 99); }
  }

  lemma ProductGrows(factor: nat, a: int, b: int)
    requires a <= b
    ensures factor * a <= factor * b
  {
  }

  /** Two finite sets with one inside the other and the same size are equal. */
  lemma SubsetOfSameSize<T>(a: set<T>, b: set<T>)
    requires a <= b && |a| == |b|
    ensures a == b
  {
    assert b == a + (b - a);
  }

  lemma SubsetSize<T>(a: set<T>, b: set<T>)
    requires a <= b
    ensures |a| <= |b|
  {
    assert b == a + (b - a);
  }

  function Members<T>(s: seq<T>): set<T> {
    set x | x in s
  }

  predicate NoDuplicates<T(==)>(s: seq<T>) {
    forall i, j | 0 <= i < j < |s| :: s[i] != s[j]
  }

  /** A sequence has at most as many members as places, and as many exactly if nothing repeats. */
  lemma {:induction false} MembersSize<T>(s: seq<T>)
    ensures |Members(s)| <= |s|
    ensures |Members(s)| == |s| <==> NoDuplicates(s)
  {
    if s != [] {
      var rest := s[1..];
      MembersSize(rest);
      assert Members(s) == {s[0]} + Members(rest);
      assert s[0] in Members(rest) <==> exists j | 1 <= j < |s| :: s[j] == s[0];
      assert NoDuplicates(s) <==> NoDuplicates(rest) && s[0] !in Members(rest) by {
        assert forall i | 0 <= i < |rest| :: rest[i] == s[i + 1];
        if NoDuplicates(rest) && s[0] !in Members(rest) {
          forall i, j | 0 <= i < j < |s| ensures s[i] != s[j] {
            assert s[j] == rest[j - 1];
            if i > 0 { assert s[i] == rest[i - 1]; }
          }
        }
      }
    }
  }
}
