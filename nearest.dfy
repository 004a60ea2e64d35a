/** What a row of a matrix profile reports: the nearest admissible neighbour of
    window x, where distances compare with IEEE `<`, only a distance below
    Double.MAX_VALUE counts, and ties go to the closest column, then the lower one. */
module Nearest {
  import opened Common

  /** Column a comes before column b for row x: it is closer to x, or as close and lower. */
  predicate Before(x: int, a: int, b: int) {
    Abs(a - x) < Abs(b - x) || (Abs(a - x) == Abs(b - x) && a < b)
  }

  /** A distance that improves on the initial row minimum Double.MAX_VALUE. */
  predicate Improves(d: Num) {
    Lt(d, Finite(MaxValue))
  }

  /** c is the nearest neighbour of row x among the columns in adm under the
      distances d: its distance improves on Double.MAX_VALUE, no admissible
      column has a strictly smaller distance, and every other admissible column
      at the same distance comes after c. */
  ghost predicate IsNearest(adm: set<int>, d: int -> Num, x: int, c: int) {
    c in adm && Improves(d(c)) &&
    (forall c' :: c' in adm ==> !Lt(d(c'), d(c))) &&
    (forall c' :: c' in adm && d(c') == d(c) ==> c' == c || Before(x, c, c'))
  }

  lemma LtTransitive(a: Num, b: Num, c: Num)
    requires Lt(a, b) && Lt(b, c)
    ensures Lt(a, c)
  {
  }

  /** Two numbers that are not NaN and not ordered either way are equal. */
  lemma LtTotal(a: Num, b: Num)
    requires !a.NaN? && !b.NaN? && !Lt(a, b) && !Lt(b, a)
    ensures a == b
  {
  }

  /** A row has at most one nearest neighbour. */
  lemma NearestUnique(adm: set<int>, d: int -> Num, x: int, c1: int, c2: int)
    requires IsNearest(adm, d, x, c1) && IsNearest(adm, d, x, c2)
    ensures c1 == c2
  {
    assert !Lt(d(c1), d(c2)) && !Lt(d(c2), d(c1));
    LtTotal(d(c1), d(c2));
  }

  /** The nearest neighbour depends only on which distances improve on
      Double.MAX_VALUE, on their order and on their equalities: two distance
      tables that agree on these have the same nearest neighbour. */
  lemma NearestTransfer(adm: set<int>, d1: int -> Num, d2: int -> Num, x: int, c: int)
    requires IsNearest(adm, d1, x, c)
    requires forall a :: a in adm ==> (Improves(d1(a)) <==> Improves(d2(a)))
    requires forall a, b :: a in adm && b in adm ==> (Lt(d1(a), d1(b)) <==> Lt(d2(a), d2(b)))
    requires forall a, b :: a in adm && b in adm ==> (d1(a) == d1(b) <==> d2(a) == d2(b))
    ensures IsNearest(adm, d2, x, c)
  {
  }
}
